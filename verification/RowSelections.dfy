/**
 Positional deletes as a row selection: the merge of the row groups of a file, the selected
 groups and the delete cursor into alternating select/skip runs.
 */
module RowSelections {
  import opened Common
  import opened DeleteVectors

  datatype RowSelector = Select(rows: nat) | Skip(rows: nat)

  function Repeat(bit: bool, n: nat): seq<bool> {
    seq(n, _ => bit)
  }

  /** A selection as one bit per row. */
  function Expand(selectors: seq<RowSelector>): seq<bool> {
    if selectors == [] then []
    else Repeat(selectors[0].Select?, selectors[0].rows) + Expand(selectors[1..])
  }

  lemma {:induction false} ExpandConcat(s: seq<RowSelector>, t: seq<RowSelector>)
    ensures Expand(s + t) == Expand(s) + Expand(t)
  {
    if s == [] {
      assert s + t == t;
    } else {
      var head, tail := Repeat(s[0].Select?, s[0].rows), Expand(s[1..]);
      ExpandConcat(s[1..], t);
      assert (s + t)[0] == s[0] && (s + t)[1..] == s[1..] + t;
      ConcatAssociative(head, tail, Expand(t));
    }
  }

  /** A selecting run is a true bit for each of its rows, a skipping one a false bit. */
  lemma RunExpanded(run: RowSelector)
    ensures |Expand([run])| == run.rows
    ensures forall i :: 0 <= i < run.rows ==> (Expand([run])[i] <==> run.Select?)
  {
    assert Expand([run]) == Repeat(run.Select?, run.rows) + [];
  }

  /** First row of group `k`; `Base(sizes, |sizes|)` is the row count of the file. */
  function Base(sizes: seq<nat>, k: nat): nat
    requires k <= |sizes|
  {
    if k == 0 then 0 else Base(sizes, k - 1) + sizes[k - 1]
  }

  lemma {:induction false} BaseMonotone(sizes: seq<nat>, j: nat, k: nat)
    requires j <= k <= |sizes|
    ensures Base(sizes, j) <= Base(sizes, k)
  {
    if j < k {
      BaseMonotone(sizes, j, k - 1);
    }
  }

  function Span(lo: nat, hi: nat): seq<nat>
    requires lo <= hi
  {
    seq(hi - lo, i requires 0 <= i => lo + i)
  }

  predicate IsSelected(selected: Option<seq<nat>>, group: nat) {
    selected.None? || group in selected.value
  }

  /** The absolute rows of the selected groups among the first `k`, in file order. */
  function RowsOf(sizes: seq<nat>, selected: Option<seq<nat>>, k: nat): seq<nat>
    requires k <= |sizes|
  {
    if k == 0 then []
    else RowsOf(sizes, selected, k - 1)
         + if IsSelected(selected, k - 1) then Span(Base(sizes, k - 1), Base(sizes, k)) else []
  }

  /** The row count of a file is that of its groups put together. */
  lemma {:induction false} BaseConcat(sizes: seq<nat>, more: seq<nat>)
    ensures Base(sizes + more, |sizes + more|) == Base(sizes, |sizes|) + Base(more, |more|)
    ensures forall n: nat :: Base([n], 1) == n
  {
    if more == [] {
      assert sizes + more == sizes;
    } else {
      var front, n := more[..|more| - 1], more[|more| - 1];
      BaseConcat(sizes, front);
      assert sizes + more == (sizes + front) + [n] && more == front + [n];
      BaseSnoc(sizes + front, n);
      BaseSnoc(front, n);
    }
    forall n: nat
      ensures Base([n], 1) == n
    {
      assert Base([n], 0) == 0;
    }
  }

  lemma BaseSnoc(sizes: seq<nat>, n: nat)
    ensures Base(sizes + [n], |sizes| + 1) == Base(sizes, |sizes|) + n
  {
    BasePrefix(sizes, [n], |sizes|);
  }

  lemma {:induction false} BasePrefix(sizes: seq<nat>, more: seq<nat>, k: nat)
    requires k <= |sizes|
    ensures Base(sizes + more, k) == Base(sizes, k)
  {
    if k > 0 {
      BasePrefix(sizes, more, k - 1);
    }
  }

  /** Where all groups are selected, row i is at place i. */
  lemma {:induction false} RowsNumbered(sizes: seq<nat>, k: nat)
    requires k <= |sizes|
    ensures |RowsOf(sizes, None, k)| == Base(sizes, k)
    ensures forall i :: 0 <= i < Base(sizes, k) ==> RowsOf(sizes, None, k)[i] == i
  {
    if k > 0 {
      RowsNumbered(sizes, k - 1);
    }
  }

  /** One bit per row: set iff the row is not deleted. */
  ghost function KeepBits(rows: seq<nat>, deleted: set<nat>): seq<bool> {
    seq(|rows|, i requires 0 <= i < |rows| => rows[i] !in deleted)
  }

  lemma KeepBitsConcat(r: seq<nat>, s: seq<nat>, deleted: set<nat>)
    ensures KeepBits(r + s, deleted) == KeepBits(r, deleted) + KeepBits(s, deleted)
  {
  }

  lemma SpanSplit(a: nat, b: nat, c: nat)
    requires a <= b <= c
    ensures Span(a, c) == Span(a, b) + Span(b, c)
  {
  }

  /** One run of rows that are all kept, or all deleted. */
  lemma RunBits(run: RowSelector, lo: nat, deleted: set<nat>)
    requires forall p :: lo <= p < lo + run.rows ==> (p !in deleted <==> run.Select?)
    ensures Expand([run]) == KeepBits(Span(lo, lo + run.rows), deleted)
  {
    assert Expand([run]) == Repeat(run.Select?, run.rows) + [];
  }

  lemma JoinBits(r: seq<RowSelector>, s: seq<RowSelector>, lo: nat, mid: nat, hi: nat, deleted: set<nat>)
    requires lo <= mid <= hi
    requires Expand(r) == KeepBits(Span(lo, mid), deleted) && Expand(s) == KeepBits(Span(mid, hi), deleted)
    ensures Expand(r + s) == KeepBits(Span(lo, hi), deleted)
  {
    ExpandConcat(r, s);
    SpanSplit(lo, mid, hi);
    KeepBitsConcat(Span(lo, mid), Span(mid, hi), deleted);
  }

  lemma SameBits(lo: nat, hi: nat, deleted: set<nat>, others: set<nat>)
    requires lo <= hi
    ensures KeepBits(Span(lo, hi), deleted) == KeepBits(Span(lo, hi), others)
       <==> forall p :: lo <= p < hi ==> (p in deleted <==> p in others)
  {
    var d, o := KeepBits(Span(lo, hi), deleted), KeepBits(Span(lo, hi), others);
    if d == o {
      forall p | lo <= p < hi
        ensures p in deleted <==> p in others
      {
        assert d[p - lo] == o[p - lo];
      }
    }
  }

  // ----- the loops as functions of the cursor -----

  /** What a group, or a turn of its chunk loop, pushes and where it leaves the look-ahead and the cursor. */
  datatype Outcome = Outcome(runs: seq<RowSelector>, cached: Option<nat>, cursor: Cursor)

  /** The inner loop: how many consecutive deletes start at row `current`. */
  function SkipRun(next: nat, p: nat, cursor: Cursor, current: nat): (r: (nat, Option<nat>, Cursor))
    requires current <= next
    ensures current + r.0 <= next
    ensures r.0 == 0 <==> p != current || p >= next
    ensures r.0 == 0 ==> r == (0, Some(p), cursor)
    decreases next - current
  {
    if p == current && p < next then
      var (cached, after) := Fetch(cursor);
      if cached.None? then (1, None, after)
      else
        var rest := SkipRun(next, cached.value, after, current + 1);
        (1 + rest.0, rest.1, rest.2)
    else (0, Some(p), cursor)
  }

  /** One turn of the chunk loop, and the row it reaches. */
  function Turn(next: nat, p: nat, cursor: Cursor, current: nat): (r: (Outcome, nat))
    requires current <= next && p < next
    ensures current <= r.1 <= next
  {
    var at := Max(current, p);
    var (n, cached, after) := SkipRun(next, p, cursor, at);
    var kept := if current < p then [Select(p - current)] else [];
    (Outcome(kept + if n > 0 then [Skip(n)] else [], cached, after), at + n)
  }

  /** The rows left once no delete of the group is left. */
  function Tail(current: nat, next: nat): seq<RowSelector>
    requires current <= next
  {
    if current < next then [Select(next - current)] else []
  }

  /** The chunk loop. A turn that reaches no further row changes nothing, so the loop never ends: None. */
  function Chunks(next: nat, p: nat, cursor: Cursor, current: nat): Option<Outcome>
    requires current <= next
    decreases next - current
  {
    if p >= next then Some(Outcome(Tail(current, next), Some(p), cursor))
    else
      var (turn, at) := Turn(next, p, cursor, current);
      if turn.cached.None? then Some(turn.(runs := turn.runs + Tail(at, next)))
      else if at == current then None
      else After(turn.runs, Chunks(next, turn.cached.value, turn.cursor, at))
  }

  function After(runs: seq<RowSelector>, rest: Option<Outcome>): Option<Outcome> {
    if rest.Some? then Some(rest.value.(runs := runs + rest.value.runs)) else None
  }

  /** A turn gets no further exactly on a look-ahead below the current row, and it then changes nothing. */
  lemma StuckTurn(next: nat, p: nat, cursor: Cursor, current: nat)
    requires current <= next && p < next
    ensures Turn(next, p, cursor, current).1 == current <==> p < current
    ensures p < current ==> Turn(next, p, cursor, current) == (Outcome([], Some(p), cursor), current)
  {
    assert p < current ==> Turn(next, p, cursor, current).0.runs == [];
  }

  /** A selected group [base, next). */
  function ReadGroup(cached: Option<nat>, cursor: Cursor, base: nat, next: nat): Option<Outcome>
    requires base <= next
  {
    if cached.None? || cached.value >= next then Some(Outcome([Select(next - base)], cached, cursor))
    else Chunks(next, cached.value, cursor, base)
  }

  /** A group that ends at `next` and is passed over: advance, and refresh a look-ahead that went stale. */
  function PassOver(cached: Option<nat>, cursor: Cursor, next: nat): (Option<nat>, Cursor) {
    var moved := Seek(cursor, next);
    if cached.Some? && cached.value < next then Fetch(moved) else (cached, moved)
  }

  /** The state after the first `k` groups, None if the chunk loop of one of them never ends. */
  function Build(sizes: seq<nat>, selected: Option<seq<nat>>, buckets: seq<Bucket>, k: nat): Option<Outcome>
    requires k <= |sizes|
  {
    if k == 0 then
      var (cached, cursor) := Fetch(Cursor(None, buckets));
      Some(Outcome([], cached, cursor))
    else
      var before := Build(sizes, selected, buckets, k - 1);
      if before.None? then None
      else if IsSelected(selected, k - 1) then
        After(before.value.runs, ReadGroup(before.value.cached, before.value.cursor, Base(sizes, k - 1), Base(sizes, k)))
      else
        var (cached, cursor) := PassOver(before.value.cached, before.value.cursor, Base(sizes, k));
        Some(Outcome(before.value.runs, cached, cursor))
  }

  /** The function of the source returns at all. */
  ghost predicate Ends(sizes: seq<nat>, selected: Option<seq<nat>>, buckets: seq<Bucket>) {
    Build(sizes, selected, buckets, |sizes|).Some?
  }

  /** It returns, and its runs expand to one bit per row of the selected groups, set iff not deleted. */
  ghost predicate Correct(sizes: seq<nat>, selected: Option<seq<nat>>, buckets: seq<Bucket>, k: nat)
    requires k <= |sizes|
  {
    var r := Build(sizes, selected, buckets, k);
    r.Some? && Expand(r.value.runs) == KeepBits(RowsOf(sizes, selected, k), PositionSet(buckets))
  }

  // ----- the deletes still owed, without cursor or buckets -----

  function Beyond(owed: set<nat>, row: nat): set<nat> {
    set p | p in owed && p >= row
  }

  /** `p` is not the least of `owed`, hence not the look-ahead. */
  ghost predicate Behind(owed: set<nat>, p: nat) {
    exists c :: c in owed && c < p
  }

  /**
   `advance_to(end)` leaves `p`. A position in a 2^32-row bucket before that of `end` is passed by if some
   owed position lies in a later bucket. One in a bucket beyond that of `end` is dropped if its low half is
   below that of `end`, unless the walk stops at an earlier bucket.
   */
  ghost predicate Stays(owed: set<nat>, end: nat, p: nat) {
    && (Hi(p) < Hi(end) ==> forall q :: q in owed ==> Hi(q) <= Hi(p))
    && (Hi(p) == Hi(end) ==> Lo(p) >= Lo(end))
    && (Hi(p) > Hi(end) ==> Lo(p) >= Lo(end) || exists q :: q in owed && Hi(end) <= Hi(q) < Hi(p))
  }

  /** What is still owed after a group that ends at `end` has been passed over. */
  ghost function Passed(owed: set<nat>, end: nat): set<nat> {
    set p | p in owed && if Behind(owed, p) then Stays(owed, end, p) else p >= end
  }

  /** What is still owed after the first `k` groups. */
  ghost function Owed(sizes: seq<nat>, selected: Option<seq<nat>>, deleted: set<nat>, k: nat): set<nat>
    requires k <= |sizes|
  {
    if k == 0 then deleted
    else
      var before := Owed(sizes, selected, deleted, k - 1);
      if IsSelected(selected, k - 1) then Beyond(before, Base(sizes, k)) else Passed(before, Base(sizes, k))
  }

  /** Nothing owed lies before the selected group `k`. */
  ghost predicate NoneStale(sizes: seq<nat>, selected: Option<seq<nat>>, deleted: set<nat>, k: nat)
    requires k < |sizes|
  {
    IsSelected(selected, k) ==> forall p :: p in Owed(sizes, selected, deleted, k) ==> p >= Base(sizes, k)
  }

  /** Every delete of the selected group `k` is still owed. */
  ghost predicate NoneLost(sizes: seq<nat>, selected: Option<seq<nat>>, deleted: set<nat>, k: nat)
    requires k < |sizes|
  {
    IsSelected(selected, k) ==>
      forall p :: p in deleted && Base(sizes, k) <= p < Base(sizes, k + 1) ==> p in Owed(sizes, selected, deleted, k)
  }

  /** Passing over the groups in between loses no delete of a selected group and leaves none behind. */
  ghost predicate Intact(sizes: seq<nat>, selected: Option<seq<nat>>, deleted: set<nat>, k: nat)
    requires k <= |sizes|
  {
    forall j :: 0 <= j < k ==> NoneStale(sizes, selected, deleted, j) && NoneLost(sizes, selected, deleted, j)
  }

  // ----- cursor and set agree -----

  ghost function Pending(cached: Option<nat>, rest: seq<nat>): seq<nat> {
    (if cached.Some? then [cached.value] else []) + rest
  }

  /** The look-ahead and the cursor hold exactly `owed`, in order; the look-ahead was read from the bucket the cursor
      stands on, and without one the cursor is empty. */
  ghost predicate Holds(cached: Option<nat>, cursor: Cursor, owed: set<nat>) {
    && cursor.Valid()
    && Ascending(Pending(cached, cursor.Remaining()))
    && (forall p :: p in Pending(cached, cursor.Remaining()) <==> p in owed)
    && (cached.None? ==> owed == {})
    && (cached.Some? ==> cursor.inner.Some? && cursor.inner.value.high == Hi(cached.value))
  }

  /** The look-ahead is the least of what is owed, and the rest is in the cursor. */
  lemma LookAhead(cached: nat, cursor: Cursor, owed: set<nat>)
    requires Holds(Some(cached), cursor, owed)
    ensures cached in owed && Ascending(cursor.Remaining())
    ensures forall p :: p in owed ==> p >= cached
    ensures forall p :: p in cursor.Remaining() <==> p in owed && p != cached
  {
    var rest := cursor.Remaining();
    var s := [cached] + rest;
    assert Pending(Some(cached), rest) == s;
    assert cached in s;
    forall i | 0 <= i < |rest|
      ensures rest[i] > cached
    {
      assert s[0] < s[i + 1];
    }
    forall i, j | 0 <= i < j < |rest|
      ensures rest[i] < rest[j]
    {
      assert s[i + 1] < s[j + 1];
    }
    assert forall p :: p in s <==> p == cached || p in rest;
  }

  /** Fetching from a cursor that holds exactly `owed`. */
  lemma FetchHolds(cursor: Cursor, owed: set<nat>)
    requires cursor.Valid() && Ascending(cursor.Remaining())
    requires forall p :: p in cursor.Remaining() <==> p in owed
    ensures var (cached, after) := Fetch(cursor); Holds(cached, after, owed)
  {
    FetchHead(cursor);
    var (cached, after) := Fetch(cursor);
    assert Pending(cached, after.Remaining()) == cursor.Remaining();
    if cached.None? {
      assert forall p :: p in owed ==> p in cursor.Remaining();
    }
  }

  lemma StartHolds(buckets: seq<Bucket>)
    requires ValidTreemap(buckets)
    ensures var (cached, cursor) := Fetch(Cursor(None, buckets)); Holds(cached, cursor, PositionSet(buckets))
  {
    assert Standing(None, buckets) == buckets;
    PositionsAscend(buckets);
    FetchHolds(Cursor(None, buckets), PositionSet(buckets));
  }

  /** Consuming the look-ahead. */
  lemma ConsumeHolds(cached: nat, cursor: Cursor, owed: set<nat>)
    requires Holds(Some(cached), cursor, owed)
    ensures var (c, after) := Fetch(cursor); Holds(c, after, Beyond(owed, cached + 1))
  {
    LookAhead(cached, cursor, owed);
    FetchHolds(cursor, Beyond(owed, cached + 1));
  }

  // ----- a selected group -----

  lemma {:induction false} SkipRunExact(next: nat, p: nat, cursor: Cursor, current: nat, owed: set<nat>)
    requires Holds(Some(p), cursor, owed) && current <= next && p >= current
    ensures var (n, cached, after) := SkipRun(next, p, cursor, current);
            && Holds(cached, after, Beyond(owed, current + n))
            && (forall q :: current <= q < current + n ==> q in owed)
    decreases next - current
  {
    hide Holds, Fetch;
    LookAhead(p, cursor, owed);
    if p == current && p < next {
      ConsumeHolds(p, cursor, owed);
      var (cached, after) := Fetch(cursor);
      var left := Beyond(owed, current + 1);
      if cached.Some? {
        LookAhead(cached.value, after, left);
        SkipRunExact(next, cached.value, after, current + 1, left);
        var n := SkipRun(next, cached.value, after, current + 1).0;
        assert Beyond(left, current + 1 + n) == Beyond(owed, current + 1 + n);
        forall q | current <= q < current + 1 + n
          ensures q in owed
        {
          assert q == current || q in left;
        }
      }
    } else {
      assert Beyond(owed, current) == owed;
    }
  }

  /** The runs of one turn, and what is owed after it. */
  lemma TurnExact(next: nat, p: nat, cursor: Cursor, current: nat, owed: set<nat>)
    requires Holds(Some(p), cursor, owed) && current <= p < next
    ensures var (turn, at) := Turn(next, p, cursor, current);
            && at > current
            && Holds(turn.cached, turn.cursor, Beyond(owed, at))
            && Expand(turn.runs) == KeepBits(Span(current, at), owed)
  {
    hide Holds, Expand, KeepBits, Span;
    LookAhead(p, cursor, owed);
    SkipRunExact(next, p, cursor, p, owed);
    var (n, cached, after) := SkipRun(next, p, cursor, p);
    RunBits(Skip(n), p, owed);
    if current < p {
      RunBits(Select(p - current), current, owed);
      JoinBits([Select(p - current)], [Skip(n)], current, p, p + n, owed);
    } else {
      assert [] + [Skip(n)] == [Skip(n)];
    }
  }

  lemma TailBits(current: nat, next: nat, owed: set<nat>)
    requires current <= next && forall p :: current <= p < next ==> p !in owed
    ensures Expand(Tail(current, next)) == KeepBits(Span(current, next), owed)
  {
    if current < next {
      RunBits(Select(next - current), current, owed);
    }
  }

  /** On a look-ahead that is not below the current row the chunk loop ends, having pushed the bits of the rest of the
      group. */
  lemma {:induction false} ChunksExact(next: nat, p: nat, cursor: Cursor, current: nat, owed: set<nat>)
    requires Holds(Some(p), cursor, owed) && current <= next && p >= current
    ensures Chunks(next, p, cursor, current).Some?
    ensures var r := Chunks(next, p, cursor, current).value;
            && Holds(r.cached, r.cursor, Beyond(owed, next))
            && Expand(r.runs) == KeepBits(Span(current, next), owed)
    decreases next - current
  {
    hide Holds, Expand, KeepBits, Span, Tail;
    LookAhead(p, cursor, owed);
    if p >= next {
      assert Beyond(owed, next) == owed;
      TailBits(current, next, owed);
    } else {
      TurnExact(next, p, cursor, current, owed);
      var (turn, at) := Turn(next, p, cursor, current);
      var left := Beyond(owed, at);
      SameBits(at, next, owed, left);
      if turn.cached.None? {
        assert left == {} by { NoLookAhead(turn.cursor, left); }
        assert Beyond(owed, next) == left;
        TailBits(at, next, left);
        JoinBits(turn.runs, Tail(at, next), current, at, next, owed);
      } else {
        LookAhead(turn.cached.value, turn.cursor, left);
        ChunksExact(next, turn.cached.value, turn.cursor, at, left);
        var rest := Chunks(next, turn.cached.value, turn.cursor, at).value;
        assert Beyond(left, next) == Beyond(owed, next);
        JoinBits(turn.runs, rest.runs, current, at, next, owed);
      }
    }
  }

  lemma NoLookAhead(cursor: Cursor, owed: set<nat>)
    requires Holds(None, cursor, owed)
    ensures owed == {}
  {
  }

  /** A selected group is read to the end if and only if nothing owed lies before it. Its runs are then its rows, kept
      unless owed, and what is owed afterwards lies beyond it. */
  lemma GroupExact(cached: Option<nat>, cursor: Cursor, base: nat, next: nat, owed: set<nat>)
    requires Holds(cached, cursor, owed) && base <= next
    ensures ReadGroup(cached, cursor, base, next).Some? <==> forall p :: p in owed ==> p >= base
    ensures ReadGroup(cached, cursor, base, next).Some? ==>
              var r := ReadGroup(cached, cursor, base, next).value;
              && Holds(r.cached, r.cursor, Beyond(owed, next))
              && Expand(r.runs) == KeepBits(Span(base, next), owed)
  {
    hide Holds, Expand, KeepBits, Span;
    if cached.None? {
      NoLookAhead(cursor, owed);
      assert Beyond(owed, next) == owed;
      RunBits(Select(next - base), base, owed);
    } else {
      LookAhead(cached.value, cursor, owed);
      if cached.value >= next {
        assert Beyond(owed, next) == owed;
        RunBits(Select(next - base), base, owed);
      } else if cached.value >= base {
        ChunksExact(next, cached.value, cursor, base, owed);
      } else {
        StuckTurn(next, cached.value, cursor, base);
      }
    }
  }

  // ----- a group that is passed over -----

  lemma AdvancedInPlace(bs: seq<Bucket>, pos: nat, p: nat)
    requires ValidBuckets(bs) && bs != [] && bs[0].high >= Hi(pos)
    ensures Ascending(Advanced(bs, pos))
    ensures p in Advanced(bs, pos) <==> p in Positions(bs) && (Hi(p) == bs[0].high ==> Lo(p) >= Lo(pos))
  {
    var b := bs[0];
    FromMembers(b.lows, Lo(pos));
    var kept := [Bucket(b.high, From(b.lows, Lo(pos)))] + bs[1..];
    assert kept[1..] == bs[1..];
    assert Positions(kept) == Advanced(bs, pos);
    PositionsAscend(kept);
    BucketMember(b, p);
    BucketMember(kept[0], p);
    Member(bs[1..], p);
  }

  /** `advance_to(pos)` on this cursor leaves position `p` to be yielded. */
  ghost predicate Survives(bs: seq<Bucket>, pos: nat, p: nat) {
    && (Hi(p) < Hi(pos) ==> forall b :: b in bs ==> b.high <= Hi(p))
    && (Hi(p) == Hi(pos) ==> Lo(p) >= Lo(pos))
    && (Hi(p) > Hi(pos) ==> Lo(p) >= Lo(pos) || exists b :: b in bs && Hi(pos) <= b.high < Hi(p))
  }

  /** Which positions `advance_to` leaves, whether or not it is a seek. */
  lemma {:induction false} AdvancedMember(bs: seq<Bucket>, pos: nat, p: nat)
    requires ValidBuckets(bs) && bs != []
    ensures Ascending(Advanced(bs, pos))
    ensures p in Advanced(bs, pos) <==> p in Positions(bs) && Survives(bs, pos, p)
  {
    hide Ascending, From;
    Member(bs, p);
    assert bs[0] in bs;
    if bs[0].high >= Hi(pos) {
      AdvancedInPlace(bs, pos, p);
    } else {
      BucketMember(bs[0], p);
      Member(bs[1..], p);
      if |bs| == 1 {
        PositionsAscend(bs);
        assert Advanced(bs, pos) == bs[0].Positions() + [] == Positions(bs);
      } else {
        AdvancedMember(bs[1..], pos, p);
        assert bs[1] in bs && bs[1] in bs[1..];
        assert forall b :: b in bs <==> b == bs[0] || b in bs[1..];
      }
    }
  }

  /** A bucket at hand shows a position that is owed. */
  lemma PositionOf(cached: nat, cursor: Cursor, owed: set<nat>, b: Bucket) returns (q: nat)
    requires Holds(Some(cached), cursor, owed) && b in cursor.Buckets()
    ensures q in owed && Hi(q) == b.high
  {
    LookAhead(cached, cursor, owed);
    var bs := cursor.Buckets();
    var i :| 0 <= i < |bs| && bs[i] == b;
    if i == 0 {
      q := cached;
    } else {
      assert b == cursor.outer[i - 1] && b.Valid();
      q := Join(b.high, b.lows[0]);
      assert b.lows[0] in b.lows;
      JoinInverse(b.high, b.lows[0]);
      Member(bs, q);
    }
  }

  /** A position that is owed has its bucket at hand. */
  lemma BucketOf(cached: nat, cursor: Cursor, owed: set<nat>, q: nat) returns (b: Bucket)
    requires Holds(Some(cached), cursor, owed) && q in owed
    ensures b in cursor.Buckets() && b.high == Hi(q)
  {
    LookAhead(cached, cursor, owed);
    if q == cached {
      b := cursor.Buckets()[0];
    } else {
      Member(cursor.Buckets(), q);
      b :| b in cursor.Buckets() && Hi(q) == b.high && Lo(q) in b.lows;
    }
  }

  /** Buckets and positions give the same answer. */
  lemma SurvivesStays(cached: nat, cursor: Cursor, owed: set<nat>, end: nat, p: nat)
    requires Holds(Some(cached), cursor, owed)
    ensures Survives(cursor.Buckets(), end, p) <==> Stays(owed, end, p)
  {
    hide Holds, Standing;
    if Survives(cursor.Buckets(), end, p) {
      forall q | q in owed && Hi(p) < Hi(end)
        ensures Hi(q) <= Hi(p)
      {
        var b := BucketOf(cached, cursor, owed, q);
      }
      if b :| b in cursor.Buckets() && Hi(end) <= b.high < Hi(p) {
        var q := PositionOf(cached, cursor, owed, b);
      }
    }
    if Stays(owed, end, p) {
      forall b | b in cursor.Buckets() && Hi(p) < Hi(end)
        ensures b.high <= Hi(p)
      {
        var q := PositionOf(cached, cursor, owed, b);
      }
      if q :| q in owed && Hi(end) <= Hi(q) < Hi(p) {
        var b := BucketOf(cached, cursor, owed, q);
      }
    }
  }

  /** Passing over a group does to the cursor what `Passed` does to the set, on every state. */
  lemma PassExact(cached: Option<nat>, cursor: Cursor, next: nat, owed: set<nat>)
    requires Holds(cached, cursor, owed)
    ensures var (c, after) := PassOver(cached, cursor, next); Holds(c, after, Passed(owed, next))
  {
    if cached.None? {
      PassEmpty(cursor, next, owed);
    } else {
      PassAhead(cached.value, cursor, next, owed);
    }
  }

  lemma EmptyOrMember(s: seq<nat>)
    ensures s == [] || s[0] in s
  {
  }

  lemma PassEmpty(cursor: Cursor, next: nat, owed: set<nat>)
    requires Holds(None, cursor, owed)
    ensures Holds(None, Seek(cursor, next), Passed(owed, next))
  {
    assert Pending(None, cursor.Remaining()) == cursor.Remaining();
    EmptyOrMember(cursor.Remaining());
    if cursor.inner.Some? {
      SeekAdvanced(cursor, next);
      AdvancedShorter(cursor.Buckets(), next);
    }
    assert Pending(None, Seek(cursor, next).Remaining()) == [];
  }

  lemma PassedMember(owed: set<nat>, least: nat, end: nat, p: nat)
    requires least in owed && forall q :: q in owed ==> q >= least
    ensures p in Passed(owed, end) <==> p in owed && if p == least then p >= end else Stays(owed, end, p)
  {
    hide Stays;
    assert p in owed ==> (Behind(owed, p) <==> p != least);
  }

  lemma PassAhead(cached: nat, cursor: Cursor, next: nat, owed: set<nat>)
    requires Holds(Some(cached), cursor, owed)
    ensures var (c, after) := PassOver(Some(cached), cursor, next); Holds(c, after, Passed(owed, next))
  {
    hide Positions, Advanced, Stays, Survives, Seek, Passed, Behind;
    LookAhead(cached, cursor, owed);
    SeekAdvanced(cursor, next);
    var moved := Seek(cursor, next);
    AdvancedMember(cursor.Buckets(), next, 0);
    forall p: nat
      ensures p in moved.Remaining() <==> p in owed && p != cached && Stays(owed, next, p)
      ensures p in Passed(owed, next) <==> p in moved.Remaining() || (p == cached && p >= next)
    {
      AdvancedMember(cursor.Buckets(), next, p);
      SurvivesStays(cached, cursor, owed, next, p);
      PassedMember(owed, cached, next, p);
    }
    if cached < next {
      hide Holds;
      FetchHolds(moved, Passed(owed, next));
    } else {
      ConsAscends(cached, moved.Remaining());
      assert Pending(Some(cached), moved.Remaining()) == [cached] + moved.Remaining();
    }
  }

  // ----- whole runs -----

  lemma RowsStep(sizes: seq<nat>, selected: Option<seq<nat>>, k: nat, deleted: set<nat>)
    requires k < |sizes|
    ensures KeepBits(RowsOf(sizes, selected, k + 1), deleted)
         == KeepBits(RowsOf(sizes, selected, k), deleted)
            + if IsSelected(selected, k) then KeepBits(Span(Base(sizes, k), Base(sizes, k + 1)), deleted) else []
  {
  }

  /** However far the run gets, the look-ahead and the cursor hold exactly what is owed, and there is one bit per row;
      it gets past a group if and only if nothing owed lies before it. */
  lemma {:induction false} BuildHolds(sizes: seq<nat>, selected: Option<seq<nat>>, buckets: seq<Bucket>, k: nat)
    requires k <= |sizes| && ValidTreemap(buckets)
    ensures Build(sizes, selected, buckets, k).Some? ==>
              var r := Build(sizes, selected, buckets, k).value;
              && Holds(r.cached, r.cursor, Owed(sizes, selected, PositionSet(buckets), k))
              && |Expand(r.runs)| == |RowsOf(sizes, selected, k)|
    ensures Build(sizes, selected, buckets, k).Some?
       <==> forall j :: 0 <= j < k ==> NoneStale(sizes, selected, PositionSet(buckets), j)
  {
    hide Holds, Expand, KeepBits, ReadGroup, PassOver, Passed, Beyond, PositionSet, ValidTreemap;
    if k == 0 {
      StartHolds(buckets);
      NoBits();
    } else {
      BuildHolds(sizes, selected, buckets, k - 1);
      var before := Build(sizes, selected, buckets, k - 1);
      var owed := Owed(sizes, selected, PositionSet(buckets), k - 1);
      assert (forall j :: 0 <= j < k ==> NoneStale(sizes, selected, PositionSet(buckets), j))
        <==> (forall j :: 0 <= j < k - 1 ==> NoneStale(sizes, selected, PositionSet(buckets), j))
             && NoneStale(sizes, selected, PositionSet(buckets), k - 1);
      if before.Some? {
        var base, next := Base(sizes, k - 1), Base(sizes, k);
        if IsSelected(selected, k - 1) {
          assert NoneStale(sizes, selected, PositionSet(buckets), k - 1) <==> forall p :: p in owed ==> p >= base;
          GroupExact(before.value.cached, before.value.cursor, base, next, owed);
          var group := ReadGroup(before.value.cached, before.value.cursor, base, next);
          if group.Some? {
            ExpandConcat(before.value.runs, group.value.runs);
            KeepBitsLength(Span(base, next), owed);
          }
        } else {
          PassExact(before.value.cached, before.value.cursor, next, owed);
        }
      }
    }
  }

  lemma NoBits()
    ensures Expand([]) == []
  {
  }

  lemma KeepBitsLength(rows: seq<nat>, deleted: set<nat>)
    ensures |KeepBits(rows, deleted)| == |rows|
  {
  }

  lemma {:induction false} OwedSubset(sizes: seq<nat>, selected: Option<seq<nat>>, deleted: set<nat>, k: nat)
    requires k <= |sizes|
    ensures Owed(sizes, selected, deleted, k) <= deleted
  {
    if k > 0 {
      OwedSubset(sizes, selected, deleted, k - 1);
    }
  }

  /** For every file, selection and delete vector, the result is correct if and only if `Intact` holds, a condition on
      the sizes, the selection and the delete set alone. */
  lemma {:induction false} BuildExact(sizes: seq<nat>, selected: Option<seq<nat>>, buckets: seq<Bucket>, k: nat)
    requires k <= |sizes| && ValidTreemap(buckets)
    ensures Correct(sizes, selected, buckets, k) <==> Intact(sizes, selected, PositionSet(buckets), k)
  {
    var deleted := PositionSet(buckets);
    hide Holds, Expand, KeepBits, Span, ReadGroup, PassOver, Passed, Beyond, PositionSet, ValidTreemap, RowsOf;
    if k == 0 {
      RowsNone(sizes, selected, deleted);
    } else {
      BuildExact(sizes, selected, buckets, k - 1);
      BuildHolds(sizes, selected, buckets, k - 1);
      BuildHolds(sizes, selected, buckets, k);
      RowsStep(sizes, selected, k - 1, deleted);
      var before, r := Build(sizes, selected, buckets, k - 1), Build(sizes, selected, buckets, k);
      assert Intact(sizes, selected, deleted, k) <==>
             Intact(sizes, selected, deleted, k - 1)
             && NoneStale(sizes, selected, deleted, k - 1) && NoneLost(sizes, selected, deleted, k - 1);
      if r.Some? && IsSelected(selected, k - 1) {
        var base, next := Base(sizes, k - 1), Base(sizes, k);
        var owed := Owed(sizes, selected, deleted, k - 1);
        GroupExact(before.value.cached, before.value.cursor, base, next, owed);
        var group := ReadGroup(before.value.cached, before.value.cursor, base, next).value;
        ExpandConcat(before.value.runs, group.runs);
        KeepBitsLength(RowsOf(sizes, selected, k - 1), deleted);
        ConcatSplit(Expand(before.value.runs), KeepBits(RowsOf(sizes, selected, k - 1), deleted),
                    Expand(group.runs), KeepBits(Span(base, next), deleted));
        SameBits(base, next, owed, deleted);
        OwedSubset(sizes, selected, deleted, k - 1);
      }
    }
  }

  /** The bits of the selected groups among the first `k`, given the bits of every group. */
  function GroupBits(bits: seq<seq<bool>>, selected: Option<seq<nat>>, k: nat): seq<bool>
    requires k <= |bits|
  {
    if k == 0 then []
    else GroupBits(bits, selected, k - 1) + if IsSelected(selected, k - 1) then bits[k - 1] else []
  }

  /** The rows of each group, kept unless still owed when the group is reached. */
  ghost function KeptBits(sizes: seq<nat>, selected: Option<seq<nat>>, deleted: set<nat>): (bits: seq<seq<bool>>)
    ensures |bits| == |sizes|
  {
    seq(|sizes|, g requires 0 <= g < |sizes| => KeptOf(sizes, selected, deleted, g))
  }

  ghost function KeptOf(sizes: seq<nat>, selected: Option<seq<nat>>, deleted: set<nat>, g: nat): seq<bool>
    requires g < |sizes|
  {
    KeepBits(Span(Base(sizes, g), Base(sizes, g + 1)), Owed(sizes, selected, deleted, g))
  }

  /** Whenever the source returns, a row of a selected group is skipped if and only if it is still owed when its group
      is reached. */
  lemma {:induction false} BuildBits(sizes: seq<nat>, selected: Option<seq<nat>>, buckets: seq<Bucket>, k: nat)
    requires k <= |sizes| && ValidTreemap(buckets) && Build(sizes, selected, buckets, k).Some?
    ensures Expand(Build(sizes, selected, buckets, k).value.runs)
         == GroupBits(KeptBits(sizes, selected, PositionSet(buckets)), selected, k)
  {
    hide Holds, Expand, KeepBits, Span, ReadGroup, PassOver, Passed, Beyond, PositionSet, ValidTreemap;
    if k == 0 {
      NoBits();
    } else {
      BuildBits(sizes, selected, buckets, k - 1);
      BuildHolds(sizes, selected, buckets, k - 1);
      var before := Build(sizes, selected, buckets, k - 1).value;
      if IsSelected(selected, k - 1) {
        var base, next := Base(sizes, k - 1), Base(sizes, k);
        GroupExact(before.cached, before.cursor, base, next, Owed(sizes, selected, PositionSet(buckets), k - 1));
        var group := ReadGroup(before.cached, before.cursor, base, next).value;
        ExpandConcat(before.runs, group.runs);
      }
    }
  }

  /** Where everything is intact, a row of a selected group is owed when its group is reached exactly if it is
      deleted. */
  lemma IntactOwed(sizes: seq<nat>, selected: Option<seq<nat>>, deleted: set<nat>, g: nat, r: nat)
    requires Intact(sizes, selected, deleted, |sizes|) && g < |sizes| && IsSelected(selected, g)
    requires Base(sizes, g) <= r < Base(sizes, g + 1)
    ensures r in Owed(sizes, selected, deleted, g) <==> r in deleted
  {
    assert NoneLost(sizes, selected, deleted, g);
    OwedSubset(sizes, selected, deleted, g);
  }

  lemma RowsNone(sizes: seq<nat>, selected: Option<seq<nat>>, deleted: set<nat>)
    ensures Expand([]) == KeepBits(RowsOf(sizes, selected, 0), deleted)
  {
  }

  lemma ConcatSplit(a: seq<bool>, b: seq<bool>, c: seq<bool>, d: seq<bool>)
    requires |a| == |b|
    ensures a + c == b + d <==> a == b && c == d
  {
    if a + c == b + d {
      assert a == (a + c)[..|a|] && b == (b + d)[..|b|];
      assert c == (a + c)[|a|..] && d == (b + d)[|b|..];
    }
  }

  // ----- when passing over a group is safe -----

  /** Delete `p` of a file of `total` rows is still owed when a group that starts at `base` is passed over. */
  ghost predicate Unread(deleted: set<nat>, base: nat, total: nat, p: nat) {
    p in deleted && base <= p < total
  }

  /**
   The condition on the deletes under which seeking past the skipped group [base, end) is sound. Every unread
   delete but the least sits in the cursor. One in a 2^32-row bucket before that of `end` must not be in the
   last bucket, and one in a bucket beyond that of `end` must not have a low half below that of `end`, unless
   the walk stops at an earlier bucket.
   */
  ghost predicate SafeSkip(deleted: set<nat>, base: nat, end: nat, total: nat) {
    forall p: nat :: Unread(deleted, base, total, p) ==> SafeAt(deleted, base, end, total, p)
  }

  ghost predicate SafeAt(deleted: set<nat>, base: nat, end: nat, total: nat, p: nat) {
    (exists c: nat :: Unread(deleted, base, total, c) && c < p) ==>
      && (Hi(p) < Hi(end) ==> exists q: nat :: Unread(deleted, base, total, q) && Hi(q) > Hi(p))
      && (Hi(p) > Hi(end) ==>
            Lo(p) >= Lo(end) || exists q: nat :: Unread(deleted, base, total, q) && Hi(end) <= Hi(q) < Hi(p))
  }

  ghost predicate SelectedFrom(sizes: seq<nat>, selected: Option<seq<nat>>, k: nat) {
    exists s: nat :: k <= s < |sizes| && IsSelected(selected, s)
  }

  /** Every group that is passed over while selected groups are still to come is safe to skip. */
  ghost predicate SkipsSafe(sizes: seq<nat>, selected: Option<seq<nat>>, deleted: set<nat>) {
    forall g :: 0 <= g < |sizes| && !IsSelected(selected, g) && SelectedFrom(sizes, selected, g)
      ==> SafeSkip(deleted, Base(sizes, g), Base(sizes, g + 1), Base(sizes, |sizes|))
  }

  lemma SafeInOneBucket(deleted: set<nat>, base: nat, end: nat, total: nat)
    requires end <= total < TWO_32
    ensures SafeSkip(deleted, base, end, total)
  {
    assert Hi(end) == 0;
    assert forall p: nat :: Unread(deleted, base, total, p) ==> Hi(p) == 0;
  }

  /** A file of fewer than 2^32 rows lies in one bucket, so no skip in it can go wrong. */
  lemma SmallFileIsSafe(sizes: seq<nat>, selected: Option<seq<nat>>, deleted: set<nat>)
    requires Base(sizes, |sizes|) < TWO_32
    ensures SkipsSafe(sizes, selected, deleted)
  {
    hide SafeSkip;
    forall g | 0 <= g < |sizes|
      ensures SafeSkip(deleted, Base(sizes, g), Base(sizes, g + 1), Base(sizes, |sizes|))
    {
      BaseMonotone(sizes, g + 1, |sizes|);
      SafeInOneBucket(deleted, Base(sizes, g), Base(sizes, g + 1), Base(sizes, |sizes|));
    }
  }

  /** The deletes owed are those from `row` on, as far as the file goes. */
  ghost predicate Exactly(owed: set<nat>, deleted: set<nat>, row: nat, total: nat) {
    && (forall p :: p in owed ==> p in deleted && p >= row)
    && (forall p :: Unread(deleted, row, total, p) ==> p in owed)
  }

  /** A safe skip leaves the deletes from the end of the group on. */
  lemma SafeSkipKeeps(owed: set<nat>, deleted: set<nat>, base: nat, end: nat, total: nat)
    requires Exactly(owed, deleted, base, total) && base <= end <= total
    requires SafeSkip(deleted, base, end, total)
    ensures Exactly(Passed(owed, end), deleted, end, total)
  {
    forall p: nat | p in owed
      ensures p in Passed(owed, end) ==> p >= end
      ensures end <= p < total ==> p in Passed(owed, end)
    {
      if Behind(owed, p) && p < total {
        var c :| c in owed && c < p;
        assert Unread(deleted, base, total, c) && Unread(deleted, base, total, p);
      }
    }
  }

  /** Passing over one group whose deletes all lie in the file leaves exactly those from its end on if and only if the
      skip was safe. */
  lemma SkipExact(owed: set<nat>, base: nat, end: nat, total: nat)
    requires base <= end <= total && forall p :: p in owed ==> base <= p < total
    ensures Passed(owed, end) == Beyond(owed, end) <==> SafeSkip(owed, base, end, total)
  {
    if SafeSkip(owed, base, end, total) {
      SafeSkipKeeps(owed, owed, base, end, total);
    } else {
      var p: nat :| Unread(owed, base, total, p) && !SafeAt(owed, base, end, total, p);
      assert forall q: nat :: q in owed <==> Unread(owed, base, total, q);
      assert Behind(owed, p);
      assert p in Passed(owed, end) <==> p < end;
      assert p in Beyond(owed, end) <==> p >= end;
    }
  }

  lemma {:induction false} SafeOwed(sizes: seq<nat>, selected: Option<seq<nat>>, deleted: set<nat>, k: nat)
    requires k <= |sizes| && SkipsSafe(sizes, selected, deleted)
    requires SelectedFrom(sizes, selected, k)
    ensures Exactly(Owed(sizes, selected, deleted, k), deleted, Base(sizes, k), Base(sizes, |sizes|))
  {
    hide SafeSkip, Passed;
    if k > 0 {
      var s: nat :| k <= s < |sizes| && IsSelected(selected, s);
      assert SelectedFrom(sizes, selected, k - 1);
      SafeOwed(sizes, selected, deleted, k - 1);
      BaseMonotone(sizes, k, |sizes|);
      if !IsSelected(selected, k - 1) {
        SafeSkipKeeps(Owed(sizes, selected, deleted, k - 1), deleted, Base(sizes, k - 1), Base(sizes, k), Base(sizes, |sizes|));
      }
    }
  }

  /** Safe skips keep everything intact, so the result is correct. */
  lemma SafeIsIntact(sizes: seq<nat>, selected: Option<seq<nat>>, deleted: set<nat>)
    requires SkipsSafe(sizes, selected, deleted)
    ensures Intact(sizes, selected, deleted, |sizes|)
  {
    hide SkipsSafe;
    forall k | 0 <= k < |sizes| && IsSelected(selected, k)
      ensures NoneStale(sizes, selected, deleted, k) && NoneLost(sizes, selected, deleted, k)
    {
      assert SelectedFrom(sizes, selected, k);
      SafeOwed(sizes, selected, deleted, k);
      BaseMonotone(sizes, k + 1, |sizes|);
    }
  }

  /** When one group is passed over and every other is read, the result is correct if and only if that skip is safe. */
  lemma OneGapExact(sizes: seq<nat>, selected: Option<seq<nat>>, buckets: seq<Bucket>, g: nat)
    requires ValidTreemap(buckets) && g + 1 < |sizes|
    requires forall k :: 0 <= k < |sizes| ==> (IsSelected(selected, k) <==> k != g)
    requires forall p :: p in PositionSet(buckets) ==> p < Base(sizes, |sizes|)
    ensures Correct(sizes, selected, buckets, |sizes|)
       <==> SafeSkip(PositionSet(buckets), Base(sizes, g), Base(sizes, g + 1), Base(sizes, |sizes|))
  {
    hide SafeSkip, ValidTreemap, PositionSet, Correct, Passed;
    var deleted, total := PositionSet(buckets), Base(sizes, |sizes|);
    BuildExact(sizes, selected, buckets, |sizes|);
    if SafeSkip(deleted, Base(sizes, g), Base(sizes, g + 1), total) {
      SafeIsIntact(sizes, selected, deleted);
    } else {
      GapNotIntact(sizes, selected, deleted, g);
    }
  }

  lemma GapNotIntact(sizes: seq<nat>, selected: Option<seq<nat>>, deleted: set<nat>, g: nat)
    requires g + 1 < |sizes| && forall k :: 0 <= k < |sizes| ==> (IsSelected(selected, k) <==> k != g)
    requires forall p :: p in deleted ==> p < Base(sizes, |sizes|)
    requires !SafeSkip(deleted, Base(sizes, g), Base(sizes, g + 1), Base(sizes, |sizes|))
    ensures !Intact(sizes, selected, deleted, |sizes|)
  {
    hide SafeSkip, Passed;
    var base, end, total := Base(sizes, g), Base(sizes, g + 1), Base(sizes, |sizes|);
    BaseMonotone(sizes, g + 1, |sizes|);
    OwedBeforeGap(sizes, selected, deleted, g);
    UnreadOnly(deleted, base, end, total);
    var owed := Beyond(deleted, base);
    SkipExact(owed, base, end, total);
    var after := Owed(sizes, selected, deleted, g + 1);
    OwedSubset(sizes, selected, deleted, g + 1);
    if p :| p in after && p < end {
      assert !NoneStale(sizes, selected, deleted, g + 1);
    } else {
      var p :| p in Beyond(owed, end) && p !in after;
      var k := GroupOf(sizes, g + 1, p);
      OwedShrinks(sizes, selected, deleted, g + 1, k, p);
      assert !NoneLost(sizes, selected, deleted, k);
    }
  }

  lemma {:induction false} OwedBeforeGap(sizes: seq<nat>, selected: Option<seq<nat>>, deleted: set<nat>, k: nat)
    requires k <= |sizes| && forall j :: 0 <= j < k ==> IsSelected(selected, j)
    ensures Owed(sizes, selected, deleted, k) == Beyond(deleted, Base(sizes, k))
  {
    if k > 0 {
      OwedBeforeGap(sizes, selected, deleted, k - 1);
    }
  }

  /** Only the unread deletes decide whether a skip is safe. */
  lemma UnreadOnly(deleted: set<nat>, base: nat, end: nat, total: nat)
    ensures SafeSkip(deleted, base, end, total) <==> SafeSkip(Beyond(deleted, base), base, end, total)
  {
    assert forall p: nat :: Unread(deleted, base, total, p) <==> Unread(Beyond(deleted, base), base, total, p);
  }

  /** The group a row lies in. */
  lemma {:induction false} GroupOf(sizes: seq<nat>, from: nat, p: nat) returns (k: nat)
    requires from <= |sizes| && Base(sizes, from) <= p < Base(sizes, |sizes|)
    ensures from <= k < |sizes| && Base(sizes, k) <= p < Base(sizes, k + 1)
    decreases |sizes| - from
  {
    if p < Base(sizes, from + 1) {
      k := from;
    } else {
      k := GroupOf(sizes, from + 1, p);
    }
  }

  /** What is no longer owed is never owed again. */
  lemma {:induction false} OwedShrinks(sizes: seq<nat>, selected: Option<seq<nat>>, deleted: set<nat>, j: nat,
                                       k: nat, p: nat)
    requires j <= k <= |sizes| && p !in Owed(sizes, selected, deleted, j)
    ensures p !in Owed(sizes, selected, deleted, k)
  {
    if j < k {
      OwedShrinks(sizes, selected, deleted, j, k - 1, p);
    }
  }

  // ----- the source's loops -----

  /** The inner loop: consecutive deletes from row `current` on. */
  method SkipDeleted(it: DeleteVectorIterator, first: nat, next: nat, current: nat)
    returns (runLength: nat, cached: Option<nat>)
    requires it.Valid() && current <= next
    modifies it
    ensures it.Valid()
    ensures (runLength, cached, it.State()) == SkipRun(next, first, old(it.State()), current)
  {
    hide Fetch, ValidTreemap, ValidBuckets, Positions;
    ghost var whole := SkipRun(next, first, it.State(), current);
    runLength, cached := 0, Some(first);
    while cached.Some? && cached.value == current + runLength && cached.value < next
      invariant it.Valid() && current + runLength <= next
      invariant if cached.Some? then
                  var rest := SkipRun(next, cached.value, it.State(), current + runLength);
                  whole == (runLength + rest.0, rest.1, rest.2)
                else whole == (runLength, None, it.State())
      decreases next - runLength
    {
      runLength := runLength + 1;
      cached := it.Next();
    }
  }

  /** The chunks of one selected group [base, next) that holds the look-ahead. */
  method GroupRuns(it: DeleteVectorIterator, first: nat, base: nat, next: nat)
    returns (runs: seq<RowSelector>, cached: Option<nat>)
    requires it.Valid() && base <= next && first < next
    requires Chunks(next, first, it.State(), base).Some?
    modifies it
    ensures it.Valid()
    ensures Some(Outcome(runs, cached, it.State())) == Chunks(next, first, old(it.State()), base)
  {
    hide Fetch, SkipRun, ValidTreemap, ValidBuckets, Positions;
    runs, cached := [], Some(first);
    ghost var whole := Chunks(next, first, it.State(), base);
    var nextDeleted := first;
    var current := base;
    AfterNone(whole);
    while nextDeleted < next
      invariant it.Valid() && base <= current <= next
      invariant cached == Some(nextDeleted)
      invariant whole == After(runs, Chunks(next, nextDeleted, it.State(), current)) && whole.Some?
      decreases next - current
    {
      ghost var (turn, at) := Turn(next, nextDeleted, it.State(), current);
      ghost var pushed := runs;
      if current < nextDeleted {
        runs := runs + [Select(nextDeleted - current)];
        current := nextDeleted;
      }
      var runLength;
      runLength, cached := SkipDeleted(it, nextDeleted, next, current);
      current := current + runLength;
      if runLength > 0 {
        runs := runs + [Skip(runLength)];
      }
      assert runs == pushed + turn.runs;
      match cached
      case Some(p) =>
        AfterAfter(pushed, turn.runs, Chunks(next, p, it.State(), at));
        nextDeleted := p;
      case None =>
        AfterAfter(pushed, turn.runs, Some(Outcome(Tail(at, next), None, it.State())));
        break;
    }
    assert whole == Some(Outcome(runs + Tail(current, next), cached, it.State()));
    if current < next {
      runs := runs + [Select(next - current)];
    } else {
      assert runs + [] == runs;
    }
  }

  lemma AfterNone(rest: Option<Outcome>)
    ensures After([], rest) == rest
  {
    if rest.Some? {
      assert [] + rest.value.runs == rest.value.runs;
    }
  }

  lemma AfterAfter(r: seq<RowSelector>, s: seq<RowSelector>, rest: Option<Outcome>)
    ensures After(r, After(s, rest)) == After(r + s, rest)
  {
    if rest.Some? {
      assert r + (s + rest.value.runs) == (r + s) + rest.value.runs;
    }
  }

  /** Returns the runs of `Build`, whenever that function says that the loops end at all. */
  method BuildDeletesRowSelection(sizes: seq<nat>, selected: Option<seq<nat>>, deletes: DeleteVector)
    returns (results: seq<RowSelector>)
    requires deletes.Valid()
    requires selected.Some? ==> Ascending(selected.value)
    requires Base(sizes, |sizes|) < TWO_64
    requires Ends(sizes, selected, deletes.inner)
    ensures results == Build(sizes, selected, deletes.inner, |sizes|).value.runs
    ensures Expand(results) == GroupBits(KeptBits(sizes, selected, deletes.Elements()), selected, |sizes|)
    ensures Expand(results) == KeepBits(RowsOf(sizes, selected, |sizes|), deletes.Elements())
       <==> Intact(sizes, selected, deletes.Elements(), |sizes|)
  {
    hide Holds, KeepBits, KeptBits, GroupBits, Expand, RowsOf, Positions, ValidBuckets, ValidTreemap, ReadGroup;
    hide PassOver, Chunks, Ascending, Intact, PositionSet, Fetch, Seek;
    BuildBits(sizes, selected, deletes.inner, |sizes|);
    BuildExact(sizes, selected, deletes.inner, |sizes|);
    results := [];
    var selectedIdx, base := 0, 0;
    var it := deletes.Iter();
    var cached := it.Next();
    for idx := 0 to |sizes|
      invariant base == Base(sizes, idx)
      invariant it.Valid() && fresh(it)
      invariant selected.Some? ==> Consumed(selected.value, selectedIdx, idx)
      invariant Build(sizes, selected, deletes.inner, idx) == Some(Outcome(results, cached, it.State()))
    {
      var next := base + sizes[idx];
      BaseMonotone(sizes, idx + 1, |sizes|);
      BuildStays(sizes, selected, deletes.inner, idx + 1, |sizes|);
      if selected.Some? {
        if selectedIdx == |selected.value| {
          NothingLeft(sizes, selected, deletes.inner, idx, |sizes|);
          return;
        }
        ConsumeGroup(selected.value, selectedIdx, idx);
        if idx == selected.value[selectedIdx] {
          selectedIdx := selectedIdx + 1;
        } else {
          cached := PassGroup(it, cached, next);
          base := next;
          continue;
        }
      }
      var group;
      group, cached := ReadSelected(it, cached, base, next);
      results := results + group;
      base := next;
    }
  }

  method PassGroup(it: DeleteVectorIterator, ahead: Option<nat>, next: nat) returns (cached: Option<nat>)
    requires it.Valid() && next < TWO_64
    modifies it
    ensures it.Valid() && (cached, it.State()) == PassOver(ahead, old(it.State()), next)
  {
    cached := ahead;
    it.AdvanceTo(next);
    if cached.Some? && cached.value < next {
      cached := it.Next();
    }
  }

  method ReadSelected(it: DeleteVectorIterator, ahead: Option<nat>, base: nat, next: nat)
    returns (runs: seq<RowSelector>, cached: Option<nat>)
    requires it.Valid() && base <= next
    requires ReadGroup(ahead, it.State(), base, next).Some?
    modifies it
    ensures it.Valid()
    ensures Some(Outcome(runs, cached, it.State())) == ReadGroup(ahead, old(it.State()), base, next)
  {
    if ahead.None? || ahead.value >= next {
      runs, cached := [Select(next - base)], ahead;
    } else {
      runs, cached := GroupRuns(it, ahead.value, base, next);
    }
  }

  lemma {:induction false} BuildStays(sizes: seq<nat>, selected: Option<seq<nat>>, buckets: seq<Bucket>, j: nat, k: nat)
    requires j <= k <= |sizes| && Build(sizes, selected, buckets, k).Some?
    ensures Build(sizes, selected, buckets, j).Some?
  {
    if j < k {
      BuildStays(sizes, selected, buckets, j, k - 1);
    }
  }

  /** `count` selected groups lie before `group`. */
  ghost predicate Consumed(selected: seq<nat>, count: nat, group: nat) {
    count <= |selected| && forall j :: 0 <= j < |selected| ==> (j < count <==> selected[j] < group)
  }

  lemma ConsumeGroup(selected: seq<nat>, count: nat, group: nat)
    requires Ascending(selected) && Consumed(selected, count, group) && count < |selected|
    ensures selected[count] == group ==> Consumed(selected, count + 1, group + 1)
    ensures selected[count] != group ==>
              Consumed(selected, count, group + 1) && group !in selected && exists s :: s in selected && s > group
  {
    if selected[count] != group {
      assert selected[count] in selected && selected[count] > group;
    }
  }

  /** Once the selected groups are used up, nothing more is pushed. */
  lemma {:induction false} NothingLeft(sizes: seq<nat>, selected: Option<seq<nat>>, buckets: seq<Bucket>, j: nat,
                                       k: nat)
    requires j <= k <= |sizes| && selected.Some?
    requires Consumed(selected.value, |selected.value|, j)
    requires Build(sizes, selected, buckets, j).Some?
    ensures Build(sizes, selected, buckets, k).Some?
    ensures Build(sizes, selected, buckets, k).value.runs == Build(sizes, selected, buckets, j).value.runs
  {
    if j < k {
      NothingLeft(sizes, selected, buckets, j, k - 1);
    }
  }

  // ----- what an unsafe skip does -----

  /** Deletes {0, 1}, groups [2^32, 1], group 1 selected: passing over group 0 leaves 1 as a look-ahead below the rows
      of group 1, and the source never returns. */
  lemma UnsafeSkipGoesStale()
    ensures ValidTreemap([Bucket(0, [0, 1])]) && PositionSet([Bucket(0, [0, 1])]) == {0, 1}
    ensures !Ends([TWO_32, 1], Some([1]), [Bucket(0, [0, 1])])
  {
    var sizes, selected, buckets := [TWO_32, 1], Some([1]), [Bucket(0, [0, 1])];
    TwoPositions(0, 0, 1);
    OneStaysBehind();
    FirstOwed(sizes, selected, {0, 1});
    hide Passed, Owed, PositionSet, ValidTreemap;
    assert Base(sizes, 0) == 0 && Base(sizes, 1) == TWO_32;
    assert 1 in [1] && 0 !in [1];
    assert IsSelected(selected, 1) && 1 in Owed(sizes, selected, {0, 1}, 1);
    assert !NoneStale(sizes, selected, {0, 1}, 1);
    BuildHolds(sizes, selected, buckets, 2);
  }

  lemma OneStaysBehind()
    ensures 1 in Passed({0, 1}, TWO_32)
  {
    var owed: set<nat> := {0, 1};
    assert 0 in owed && Behind(owed, 1);
    assert Hi(1) == 0 && Hi(0) == 0 && Hi(TWO_32) == 1;
  }

  lemma FirstOwed(sizes: seq<nat>, selected: Option<seq<nat>>, deleted: set<nat>)
    requires |sizes| >= 1
    ensures Owed(sizes, selected, deleted, 1)
         == if IsSelected(selected, 0) then Beyond(deleted, sizes[0]) else Passed(deleted, sizes[0])
  {
    assert Base(sizes, 1) == sizes[0];
    assert Owed(sizes, selected, deleted, 0) == deleted;
  }

  /** Deletes {2^32 + 10, 2^32 + 20}, groups [10, 90, 2^32], groups 0 and 2 selected: passing over group 1 drops the
      second delete, and the source returns a selection that keeps its row. */
  lemma UnsafeSkipLosesDelete()
    ensures ValidTreemap([Bucket(1, [10, 20])]) && PositionSet([Bucket(1, [10, 20])]) == {TWO_32 + 10, TWO_32 + 20}
    ensures Ends([10, 90, TWO_32], Some([0, 2]), [Bucket(1, [10, 20])])
    ensures !Correct([10, 90, TWO_32], Some([0, 2]), [Bucket(1, [10, 20])], 3)
  {
    var sizes, selected, buckets := [10, 90, TWO_32], Some([0, 2]), [Bucket(1, [10, 20])];
    var c, p := TWO_32 + 10, TWO_32 + 20;
    var deleted: set<nat> := {c, p};
    TwoPositions(1, 10, 20);
    assert Base(sizes, 0) == 0 && Base(sizes, 1) == 10 && Base(sizes, 2) == 100 && Base(sizes, 3) == TWO_32 + 100;
    assert 0 in [0, 2] && 1 !in [0, 2] && 2 in [0, 2];
    assert Owed(sizes, selected, deleted, 1) == Beyond(deleted, 10) == deleted;
    assert Passed(deleted, 100) == {c} by {
      assert Hi(c) == 1 && Hi(p) == 1 && Lo(p) == 20 && Hi(100) == 0 && Lo(100) == 100;
      assert !Behind(deleted, c) && Behind(deleted, p) && !Stays(deleted, 100, p);
    }
    assert Owed(sizes, selected, deleted, 2) == {c};
    assert !NoneLost(sizes, selected, deleted, 2);
    BuildHolds(sizes, selected, buckets, 3);
    BuildExact(sizes, selected, buckets, 3);
  }

  lemma TwoPositions(high: nat, a: nat, b: nat)
    requires a < b < TWO_32 && high < TWO_32
    ensures ValidTreemap([Bucket(high, [a, b])])
    ensures PositionSet([Bucket(high, [a, b])]) == {Join(high, a), Join(high, b)}
  {
    var bs := [Bucket(high, [a, b])];
    assert bs[0].Positions() == [Join(high, a), Join(high, b)];
    assert Positions(bs) == bs[0].Positions() + [];
  }
}
