/**
 Positional delete vectors: a set of 64-bit row positions kept as a treemap, that is, as
 32-bit bitmaps keyed by the high 32 bits, and the cursor that walks one in ascending order.
 */
module DeleteVectors {
  import opened Common

  const TWO_32: nat := 0x1_0000_0000
  const TWO_64: nat := 0x1_0000_0000_0000_0000

  function Hi(pos: nat): nat {
    pos / 0x1_0000_0000
  }

  function Lo(pos: nat): nat {
    pos % 0x1_0000_0000
  }

  /** `high << 32 | low`; the two halves do not overlap, so the bitwise or is a sum. */
  function Join(high: nat, low: nat): nat {
    high * 0x1_0000_0000 + low
  }

  lemma JoinInverse(high: nat, low: nat)
    requires low < TWO_32
    ensures Hi(Join(high, low)) == high && Lo(Join(high, low)) == low
  {
  }

  /** One bitmap of the treemap, or what a cursor has left of it. */
  datatype Bucket = Bucket(high: nat, lows: seq<nat>) {
    ghost predicate Valid() {
      && high < TWO_32
      && Ascending(lows)
      && forall l :: l in lows ==> l < TWO_32
    }

    ghost function Positions(): (s: seq<nat>)
      ensures |s| == |lows|
    {
      seq(|lows|, i requires 0 <= i < |lows| => Join(high, lows[i]))
    }
  }

  /** Buckets in ascending key order; a bucket may be partly consumed, so it may be empty. */
  ghost predicate ValidBuckets(bs: seq<Bucket>) {
    && (forall i :: 0 <= i < |bs| ==> bs[i].Valid())
    && (forall i, j :: 0 <= i < j < |bs| ==> bs[i].high < bs[j].high)
  }

  /** A treemap holds no empty bitmap. */
  ghost predicate ValidTreemap(bs: seq<Bucket>) {
    && ValidBuckets(bs)
    && forall i :: 0 <= i < |bs| ==> bs[i].lows != []
  }

  ghost function Positions(bs: seq<Bucket>): seq<nat> {
    if bs == [] then [] else bs[0].Positions() + Positions(bs[1..])
  }

  lemma BucketMember(b: Bucket, p: nat)
    requires b.Valid()
    ensures p in b.Positions() <==> Hi(p) == b.high && Lo(p) in b.lows
  {
    if p in b.Positions() {
      var i :| 0 <= i < |b.lows| && b.Positions()[i] == p;
      assert b.lows[i] in b.lows;
      JoinInverse(b.high, b.lows[i]);
    }
    if Hi(p) == b.high && Lo(p) in b.lows {
      var i :| 0 <= i < |b.lows| && b.lows[i] == Lo(p);
      assert b.Positions()[i] == p;
    }
  }

  lemma {:induction false} Member(bs: seq<Bucket>, p: nat)
    requires ValidBuckets(bs)
    ensures p in Positions(bs) <==> exists b :: b in bs && Hi(p) == b.high && Lo(p) in b.lows
  {
    if bs != [] {
      Member(bs[1..], p);
      BucketMember(bs[0], p);
      assert bs == [bs[0]] + bs[1..];
      assert forall b :: b in bs <==> b == bs[0] || b in bs[1..];
    }
  }

  /** Walking the buckets in key order visits the positions in ascending order. */
  lemma {:induction false} PositionsAscend(bs: seq<Bucket>)
    requires ValidBuckets(bs)
    ensures Ascending(Positions(bs))
  {
    if bs != [] {
      PositionsAscend(bs[1..]);
      var head, tail := bs[0].Positions(), Positions(bs[1..]);
      forall i, j | 0 <= i < j < |head + tail|
        ensures (head + tail)[i] < (head + tail)[j]
      {
        if j < |head| {
          assert bs[0].lows[i] < bs[0].lows[j];
        } else if i < |head| {
          var p, q := head[i], tail[j - |head|];
          assert p in head && q in tail;
          BucketMember(bs[0], p);
          Member(bs[1..], q);
        }
      }
    }
  }

  // ----- DeleteVector -----

  function InsertLow(lows: seq<nat>, x: nat): (r: seq<nat>)
    requires Ascending(lows)
    ensures Ascending(r)
    ensures forall l :: l in r <==> l in lows || l == x
  {
    if lows == [] || x < lows[0] then [x] + lows
    else if x == lows[0] then lows
    else
      var rest := InsertLow(lows[1..], x);
      assert lows == [lows[0]] + lows[1..];
      ConsAscends(lows[0], rest);
      [lows[0]] + rest
  }

  /** Where the roaring treemap puts one more position. */
  function InsertPosition(bs: seq<Bucket>, high: nat, low: nat): (r: seq<Bucket>)
    requires ValidTreemap(bs) && high < TWO_32 && low < TWO_32
    ensures ValidTreemap(r) && r != []
    ensures r[0].high == high || (bs != [] && r[0].high == bs[0].high)
  {
    if bs == [] || high < bs[0].high then [Bucket(high, [low])] + bs
    else if high == bs[0].high then [Bucket(high, InsertLow(bs[0].lows, low))] + bs[1..]
    else [bs[0]] + InsertPosition(bs[1..], high, low)
  }

  lemma {:induction false} InsertPositionMember(bs: seq<Bucket>, high: nat, low: nat, p: nat)
    requires ValidTreemap(bs) && high < TWO_32 && low < TWO_32
    ensures p in Positions(InsertPosition(bs, high, low)) <==> p in Positions(bs) || p == Join(high, low)
  {
    JoinInverse(high, low);
    BucketMember(Bucket(high, [low]), p);
    if bs != [] && high >= bs[0].high {
      BucketMember(bs[0], p);
      if high == bs[0].high {
        BucketMember(Bucket(high, InsertLow(bs[0].lows, low)), p);
      } else {
        InsertPositionMember(bs[1..], high, low, p);
      }
    }
  }

  ghost function PositionSet(bs: seq<Bucket>): set<nat> {
    set p | p in Positions(bs)
  }

  lemma InsertPositionSet(bs: seq<Bucket>, pos: nat)
    requires ValidTreemap(bs) && pos < TWO_64
    ensures PositionSet(InsertPosition(bs, Hi(pos), Lo(pos))) == PositionSet(bs) + {pos}
  {
    forall p
      ensures p in Positions(InsertPosition(bs, Hi(pos), Lo(pos))) <==> p in Positions(bs) || p == pos
    {
      InsertPositionMember(bs, Hi(pos), Lo(pos), p);
    }
  }

  lemma InsertPresent(bs: seq<Bucket>, pos: nat)
    requires ValidTreemap(bs) && pos < TWO_64 && pos in PositionSet(bs)
    ensures InsertPosition(bs, Hi(pos), Lo(pos)) == bs
  {
    var next := InsertPosition(bs, Hi(pos), Lo(pos));
    InsertPositionSet(bs, pos);
    assert forall p :: p in PositionSet(next) <==> p in Positions(next);
    assert forall p :: p in PositionSet(bs) <==> p in Positions(bs);
    PositionsAscend(next);
    PositionsAscend(bs);
    AscendingUnique(Positions(next), Positions(bs));
    SamePositions(next, bs);
  }

  class DeleteVector {
    var inner: seq<Bucket>

    ghost predicate Valid()
      reads this
    {
      ValidTreemap(inner)
    }

    /** The deleted positions. */
    ghost function Elements(): set<nat>
      reads this
    {
      PositionSet(inner)
    }

    constructor ()
      ensures Valid() && Elements() == {}
    {
      inner := [];
    }

    method Insert(pos: nat) returns (added: bool)
      requires Valid() && pos < TWO_64
      modifies this
      ensures Valid()
      ensures Elements() == old(Elements()) + {pos}
      ensures added == (pos !in old(Elements()))
    {
      InsertPositionSet(inner, pos);
      if pos in PositionSet(inner) {
        InsertPresent(inner, pos);
      }
      var next := InsertPosition(inner, Hi(pos), Lo(pos));
      added := next != inner;
      inner := next;
    }

    /** `self |= other`, one position of `other` at a time. */
    method BitOrAssign(other: DeleteVector)
      requires Valid() && other.Valid() && other != this
      modifies this
      ensures Valid()
      ensures Elements() == old(Elements()) + other.Elements()
    {
      hide ValidTreemap, ValidBuckets, Positions, Standing;
      var it := other.Iter();
      ghost var merged: seq<nat> := [];
      var next := it.Next();
      while next.Some?
        invariant Valid() && it.Valid() && fresh(it)
        invariant next.Some? ==> 0 <= next.value < TWO_64
        invariant next.None? ==> it.Remaining() == []
        invariant Positions(other.inner) == merged + (if next.Some? then [next.value] else []) + it.Remaining()
        invariant Elements() == old(Elements()) + set p: nat | p in merged
        decreases next.Some?, |it.Remaining()|
      {
        var _ := Insert(next.value);
        merged := merged + [next.value];
        next := it.Next();
      }
      assert Positions(other.inner) == merged;
    }

    method Iter() returns (it: DeleteVectorIterator)
      requires Valid()
      ensures fresh(it) && it.Valid() && it.State() == Cursor(None, inner)
      ensures it.Remaining() == Positions(inner)
    {
      it := new DeleteVectorIterator(inner);
    }
  }

  /** A treemap is determined by its positions. */
  lemma {:induction false} SamePositions(bs: seq<Bucket>, cs: seq<Bucket>)
    requires ValidTreemap(bs) && ValidTreemap(cs)
    requires Positions(bs) == Positions(cs)
    ensures bs == cs
  {
    if bs != [] {
      assert bs[0].Positions()[0] == Positions(bs)[0];
    }
    if cs != [] {
      assert cs[0].Positions()[0] == Positions(cs)[0];
    }
    if bs != [] && cs != [] {
      var b, c := bs[0], cs[0];
      assert b.lows[0] in b.lows && c.lows[0] in c.lows;
      JoinInverse(b.high, b.lows[0]);
      JoinInverse(c.high, c.lows[0]);
      forall l
        ensures l in b.lows <==> l in c.lows
      {
        HeadMember(bs, l);
        HeadMember(cs, l);
      }
      AscendingUnique(b.lows, c.lows);
      assert Positions(bs[1..]) == Positions(bs)[|b.lows|..];
      assert Positions(cs[1..]) == Positions(cs)[|c.lows|..];
      SamePositions(bs[1..], cs[1..]);
      assert bs == [b] + bs[1..] && cs == [c] + cs[1..];
    }
  }

  lemma HeadMember(bs: seq<Bucket>, l: nat)
    requires ValidBuckets(bs) && bs != []
    ensures l in bs[0].lows <==> l < TWO_32 && Join(bs[0].high, l) in Positions(bs)
  {
    if l < TWO_32 {
      JoinInverse(bs[0].high, l);
      Member(bs, Join(bs[0].high, l));
    }
  }

  // ----- DeleteVectorIterator -----

  lemma ConsumeLow(b: Bucket, outer: seq<Bucket>)
    requires ValidBuckets([b] + outer) && b.lows != []
    ensures Join(b.high, b.lows[0]) < TWO_64 && Hi(Join(b.high, b.lows[0])) == b.high
    ensures ValidBuckets([Bucket(b.high, b.lows[1..])] + outer)
    ensures Positions([b] + outer)
         == [Join(b.high, b.lows[0])] + Positions([Bucket(b.high, b.lows[1..])] + outer)
  {
    var rest := Bucket(b.high, b.lows[1..]);
    assert ([b] + outer)[0].Valid() && b.lows[0] in b.lows;
    assert forall l :: l in rest.lows ==> l in b.lows;
    JoinInverse(b.high, b.lows[0]);
    assert ([b] + outer)[1..] == outer && ([rest] + outer)[1..] == outer;
    assert b.Positions() == [Join(b.high, b.lows[0])] + rest.Positions();
  }

  ghost function Standing(inner: Option<Bucket>, outer: seq<Bucket>): seq<Bucket> {
    (if inner.Some? then [inner.value] else []) + outer
  }

  lemma SkipEmpty(inner: Option<Bucket>, outer: seq<Bucket>)
    requires inner.Some? ==> inner.value.lows == []
    ensures Positions(Standing(inner, outer)) == Positions(outer)
    ensures outer == [] ==> Positions(outer) == []
    ensures outer != [] ==> Standing(Some(outer[0]), outer[1..]) == outer
  {
    var bs := Standing(inner, outer);
    if inner.Some? {
      assert bs[0].Positions() == [] && bs[1..] == outer;
    } else {
      assert bs == outer;
    }
  }

  /** Where a cursor stands: the bucket being read, if any, and those still to be read. */
  datatype Cursor = Cursor(inner: Option<Bucket>, outer: seq<Bucket>) {
    ghost predicate Valid() {
      && ValidTreemap(outer)
      && ValidBuckets(Buckets())
    }

    ghost function Buckets(): seq<Bucket> {
      Standing(inner, outer)
    }

    /** What the cursor has still to yield, in order. */
    ghost function Remaining(): seq<nat> {
      Positions(Buckets())
    }
  }

  /** One `next` step. */
  function Fetch(c: Cursor): (Option<nat>, Cursor)
    decreases |c.outer|
  {
    if c.inner.Some? && c.inner.value.lows != [] then
      var b := c.inner.value;
      (Some(Join(b.high, b.lows[0])), Cursor(Some(Bucket(b.high, b.lows[1..])), c.outer))
    else if c.outer == [] then (None, c)
    else Fetch(Cursor(Some(c.outer[0]), c.outer[1..]))
  }

  /** One `advance_to` call. */
  function Seek(c: Cursor, pos: nat): Cursor
    decreases |c.outer|
  {
    if c.inner.None? then c
    else if c.inner.value.high < Hi(pos) then
      if c.outer == [] then c else Seek(Cursor(Some(c.outer[0]), c.outer[1..]), pos)
    else c.(inner := Some(Bucket(c.inner.value.high, From(c.inner.value.lows, Lo(pos)))))
  }

  /** A cursor may always move on to the next bucket. */
  lemma NextBucket(c: Cursor)
    requires c.Valid()
    ensures c.outer != [] ==> Cursor(Some(c.outer[0]), c.outer[1..]).Valid()
  {
    if c.outer != [] {
      assert Standing(Some(c.outer[0]), c.outer[1..]) == c.outer;
    }
  }

  /** `next` yields the least remaining position, or None exactly when nothing remains. */
  lemma {:induction false} FetchHead(c: Cursor)
    requires c.Valid()
    ensures var (r, d) := Fetch(c);
            && d.Valid()
            && (r.None? <==> c.Remaining() == [])
            && (r.None? ==> d.Remaining() == [])
            && (r.Some? ==> d.inner.Some? && d.inner.value.high == Hi(r.value) && r.value < TWO_64)
            && (r.Some? ==> c.Remaining() == [r.value] + d.Remaining())
    decreases |c.outer|
  {
    hide ValidBuckets;
    if c.inner.Some? && c.inner.value.lows != [] {
      ConsumeLow(c.inner.value, c.outer);
    } else {
      NextBucket(c);
      SkipEmpty(c.inner, c.outer);
      if c.outer != [] {
        FetchHead(Cursor(Some(c.outer[0]), c.outer[1..]));
      }
    }
  }

  /** What `advance_to` leaves, on a cursor that has started. */
  lemma {:induction false} SeekAdvanced(c: Cursor, pos: nat)
    requires c.Valid() && c.inner.Some?
    ensures Seek(c, pos).Valid() && Seek(c, pos).inner.Some?
    ensures c.inner.value.high >= Hi(pos) ==> Seek(c, pos).inner.value.high == c.inner.value.high
    ensures Seek(c, pos).Remaining() == Advanced(c.Buckets(), pos)
    decreases |c.outer|
  {
    hide Positions, Advanced, From;
    if c.inner.value.high < Hi(pos) {
      WalkOn(c.inner.value, c.outer, pos);
      if c.outer != [] {
        SeekAdvanced(Cursor(Some(c.outer[0]), c.outer[1..]), pos);
      }
    } else {
      LandOn(c.inner.value, c.outer, pos);
    }
  }

  class DeleteVectorIterator {
    var outer: seq<Bucket>
    var inner: Option<Bucket>

    ghost function State(): Cursor
      reads this
    {
      Cursor(inner, outer)
    }

    ghost predicate Valid()
      reads this
    {
      State().Valid()
    }

    /** What the cursor has still to yield, in order. */
    ghost function Remaining(): seq<nat>
      reads this
    {
      State().Remaining()
    }

    constructor (buckets: seq<Bucket>)
      requires ValidTreemap(buckets)
      ensures Valid() && State() == Cursor(None, buckets)
      ensures Remaining() == Positions(buckets)
    {
      outer := buckets;
      inner := None;
      new;
      assert Standing(None, buckets) == buckets;
    }

    /** Yields the least remaining position, or None exactly when nothing remains. */
    method Next() returns (r: Option<nat>)
      requires Valid()
      modifies this
      ensures Valid() && (r, State()) == Fetch(old(State()))
      ensures r.None? <==> old(Remaining()) == []
      ensures r.None? ==> Remaining() == []
      ensures r.Some? ==> inner.Some? && inner.value.high == Hi(r.value) && r.value < TWO_64
      ensures r.Some? ==> old(Remaining()) == [r.value] + Remaining()
      decreases |outer|
    {
      hide Positions, ValidBuckets, ValidTreemap;
      FetchHead(State());
      if inner.Some? && inner.value.lows != [] {
        var b := inner.value;
        inner := Some(Bucket(b.high, b.lows[1..]));
        return Some(Join(b.high, b.lows[0]));
      }
      if outer == [] {
        return None;
      }
      NextBucket(State());
      inner, outer := Some(outer[0]), outer[1..];
      r := Next();
    }

    /** The source's `advance_to`; `AdvanceExact` says when it is a seek. */
    method AdvanceTo(pos: nat)
      requires Valid() && pos < TWO_64
      modifies this
      ensures Valid() && State() == Seek(old(State()), pos)
      ensures Remaining() == if old(inner.None?) then old(Remaining()) else Advanced(old(State()).Buckets(), pos)
    {
      hide Positions, ValidBuckets, ValidTreemap, Advanced, From;
      var hi, lo := Hi(pos), Lo(pos);
      if inner.None? {
        return;
      }
      SeekAdvanced(State(), pos);
      while inner.value.high < hi
        invariant inner.Some?
        invariant Seek(State(), pos) == Seek(old(State()), pos)
        decreases |outer|
      {
        if outer == [] {
          return;
        }
        inner, outer := Some(outer[0]), outer[1..];
      }
      inner := Some(Bucket(inner.value.high, From(inner.value.lows, lo)));
    }
  }

  lemma WalkOn(b: Bucket, outer: seq<Bucket>, pos: nat)
    requires ValidTreemap(outer) && ValidBuckets(Standing(Some(b), outer)) && b.high < Hi(pos)
    ensures outer == [] ==> Advanced(Standing(Some(b), outer), pos) == Positions(Standing(Some(b), outer))
    ensures outer != [] ==>
              && ValidTreemap(outer[1..])
              && ValidBuckets(Standing(Some(outer[0]), outer[1..]))
              && Advanced(Standing(Some(b), outer), pos) == Advanced(Standing(Some(outer[0]), outer[1..]), pos)
  {
    var bs := Standing(Some(b), outer);
    assert bs[1..] == outer;
    if outer != [] {
      assert Standing(Some(outer[0]), outer[1..]) == outer;
    }
  }

  lemma LandOn(b: Bucket, outer: seq<Bucket>, pos: nat)
    requires ValidBuckets(Standing(Some(b), outer)) && b.high >= Hi(pos)
    ensures var kept := Standing(Some(Bucket(b.high, From(b.lows, Lo(pos)))), outer);
            ValidBuckets(kept) && Positions(kept) == Advanced(Standing(Some(b), outer), pos)
  {
    var rest := Bucket(b.high, From(b.lows, Lo(pos)));
    assert Standing(Some(b), outer)[0].Valid();
    FromMembers(b.lows, Lo(pos));
    assert Standing(Some(b), outer)[1..] == outer && Standing(Some(rest), outer)[1..] == outer;
  }

  /** What is left to yield after `advance_to(pos)` on a cursor standing on `bs[0]`. */
  ghost function Advanced(bs: seq<Bucket>, pos: nat): seq<nat>
    requires bs != []
  {
    if bs[0].high >= Hi(pos) then
      Bucket(bs[0].high, From(bs[0].lows, Lo(pos))).Positions() + Positions(bs[1..])
    else if |bs| == 1 then bs[0].Positions()
    else Advanced(bs[1..], pos)
  }

  /**
   The guard under which `advance_to` is a seek: when no bucket reaches the high half of `pos`
   nothing may be left, and a first bucket beyond it may hold no low half below that of `pos`.
   */
  ghost predicate SeekGuard(bs: seq<Bucket>, pos: nat)
    requires bs != []
  {
    if bs[|bs| - 1].high < Hi(pos) then Positions(bs) == []
    else forall k :: 0 <= k < |bs| && Overshoots(bs, k, Hi(pos)) ==> forall l :: l in bs[k].lows ==> l >= Lo(pos)
  }

  /** The walk to `high` stops at `bs[k]`, which lies beyond it. */
  ghost predicate Overshoots(bs: seq<Bucket>, k: nat, high: nat)
    requires k < |bs|
  {
    bs[k].high > high && forall b :: b in bs[..k] ==> b.high < high
  }

  lemma FromBucket(b: Bucket, pos: nat)
    requires b.Valid()
    ensures b.high == Hi(pos) ==> From(b.Positions(), pos) == Bucket(b.high, From(b.lows, Lo(pos))).Positions()
    ensures b.high > Hi(pos) ==> From(b.Positions(), pos) == b.Positions()
    ensures b.high < Hi(pos) ==> From(b.Positions(), pos) == []
  {
    var rest := Bucket(b.high, From(b.lows, Lo(pos)));
    FromMembers(b.lows, Lo(pos));
    assert Ascending(b.Positions());
    FromMembers(b.Positions(), pos);
    forall p
      ensures p in b.Positions() <==> Hi(p) == b.high && Lo(p) in b.lows
      ensures p in rest.Positions() <==> Hi(p) == b.high && Lo(p) in rest.lows
    {
      BucketMember(b, p);
      BucketMember(rest, p);
    }
    if b.high == Hi(pos) {
      AscendingUnique(From(b.Positions(), pos), rest.Positions());
    } else if b.high > Hi(pos) {
      AscendingUnique(From(b.Positions(), pos), b.Positions());
    } else {
      AscendingUnique(From(b.Positions(), pos), []);
    }
  }

  lemma {:induction false} FromConcat(s: seq<nat>, t: seq<nat>, x: nat)
    ensures From(s, x) == [] ==> From(s + t, x) == From(t, x)
    ensures From(s, x) != [] ==> From(s + t, x) == From(s, x) + t
  {
    if s == [] {
      assert s + t == t;
    } else if s[0] < x {
      FromConcat(s[1..], t, x);
      assert (s + t)[1..] == s[1..] + t;
    }
  }

  lemma FromAll(bs: seq<Bucket>, pos: nat)
    requires ValidBuckets(bs)
    requires forall i :: 0 <= i < |bs| ==> bs[i].high > Hi(pos)
    ensures From(Positions(bs), pos) == Positions(bs)
  {
    PositionsAscend(bs);
    FromMembers(Positions(bs), pos);
    forall p | p in Positions(bs)
      ensures p >= pos
    {
      Member(bs, p);
    }
    AscendingUnique(From(Positions(bs), pos), Positions(bs));
  }

  lemma GuardHere(bs: seq<Bucket>, pos: nat)
    requires ValidBuckets(bs) && bs != [] && bs[0].high >= Hi(pos)
    ensures SeekGuard(bs, pos) <==> bs[0].high == Hi(pos) || forall l :: l in bs[0].lows ==> l >= Lo(pos)
  {
    assert Overshoots(bs, 0, Hi(pos)) <==> bs[0].high > Hi(pos);
    assert forall k :: 0 < k < |bs| && Overshoots(bs, k, Hi(pos)) ==> bs[0] in bs[..k];
  }

  /** The first bucket decides: exactly when `advance_to` lands right on a cursor that need not walk. */
  lemma AdvanceExactHere(bs: seq<Bucket>, pos: nat)
    requires ValidBuckets(bs) && bs != [] && bs[0].high >= Hi(pos)
    ensures Advanced(bs, pos) == From(Positions(bs), pos) <==> SeekGuard(bs, pos)
  {
    var b := bs[0];
    var kept := Bucket(b.high, From(b.lows, Lo(pos)));
    GuardHere(bs, pos);
    FromBucket(b, pos);
    FromConcat(b.Positions(), Positions(bs[1..]), pos);
    FromAll(bs[1..], pos);
    FromMembers(b.lows, Lo(pos));
    FromShorter(b.lows, Lo(pos));
    hide SeekGuard, From, Ascending, ValidBuckets;
    if b.high > Hi(pos) {
      assert From(Positions(bs), pos) == b.Positions() + Positions(bs[1..]);
      if forall l :: l in b.lows ==> l >= Lo(pos) {
        AscendingUnique(From(b.lows, Lo(pos)), b.lows);
      } else {
        assert |From(b.lows, Lo(pos))| < |b.lows|;
      }
      assert |Advanced(bs, pos)| == |kept.lows| + |Positions(bs[1..])|;
    }
  }

  lemma {:induction false} FromShorter(s: seq<nat>, x: nat)
    ensures |From(s, x)| <= |s|
    ensures From(s, x) == s || |From(s, x)| < |s|
  {
    if s != [] && s[0] < x {
      FromShorter(s[1..], x);
    }
  }

  lemma {:induction false} AdvancedShorter(bs: seq<Bucket>, pos: nat)
    requires bs != []
    ensures |Advanced(bs, pos)| <= |Positions(bs)|
  {
    FromShorter(bs[0].lows, Lo(pos));
    if bs[0].high < Hi(pos) && |bs| > 1 {
      AdvancedShorter(bs[1..], pos);
    }
  }

  /** For every cursor state and target, `advance_to` leaves exactly the positions from `pos` on, in order, if and only
      if `SeekGuard` held before the call. */
  lemma {:induction false} AdvanceExact(bs: seq<Bucket>, pos: nat)
    requires ValidBuckets(bs) && bs != []
    requires forall b :: b in bs[1..] ==> b.lows != []
    ensures Advanced(bs, pos) == From(Positions(bs), pos) <==> SeekGuard(bs, pos)
  {
    var b := bs[0];
    if b.high >= Hi(pos) {
      AdvanceExactHere(bs, pos);
    } else {
      assert Positions(bs) == b.Positions() + Positions(bs[1..]);
      FromBucket(b, pos);
      FromConcat(b.Positions(), Positions(bs[1..]), pos);
      if |bs| == 1 {
        assert Positions(bs) == b.Positions();
        assert From(Positions(bs), pos) == [];
      } else {
        AdvanceExact(bs[1..], pos);
        assert bs[1..][|bs| - 2] == bs[|bs| - 1];
        SeekGuardTail(bs, pos);
      }
    }
  }

  lemma SeekGuardTail(bs: seq<Bucket>, pos: nat)
    requires ValidBuckets(bs) && |bs| > 1 && bs[0].high < Hi(pos)
    requires forall b :: b in bs[1..] ==> b.lows != []
    ensures SeekGuard(bs, pos) <==> SeekGuard(bs[1..], pos)
  {
    var t := bs[1..];
    if bs[|bs| - 1].high < Hi(pos) {
      assert t[0] in t;
      assert Positions(t) != [] && Positions(bs) != [];
    } else {
      forall k | 0 <= k < |t|
        ensures Overshoots(t, k, Hi(pos)) <==> Overshoots(bs, k + 1, Hi(pos))
      {
        assert bs[..k + 1] == [bs[0]] + t[..k];
      }
      if SeekGuard(t, pos) {
        forall k | 0 <= k < |bs| && Overshoots(bs, k, Hi(pos))
          ensures forall l :: l in bs[k].lows ==> l >= Lo(pos)
        {
          assert Overshoots(t, k - 1, Hi(pos)) && t[k - 1] == bs[k];
        }
      }
      if SeekGuard(bs, pos) {
        forall k | 0 <= k < |t| && Overshoots(t, k, Hi(pos))
          ensures forall l :: l in t[k].lows ==> l >= Lo(pos)
        {
          assert bs[k + 1] == t[k];
        }
      }
    }
  }

  /** A cursor that still has the bucket of `pos`, even an emptied one, can always seek to it. */
  lemma BucketPresentSuffices(bs: seq<Bucket>, pos: nat)
    requires ValidBuckets(bs)
    requires exists b :: b in bs && b.high == Hi(pos)
    ensures SeekGuard(bs, pos)
  {
    var k :| 0 <= k < |bs| && bs[k].high == Hi(pos);
    forall j | 0 <= j < |bs|
      ensures !Overshoots(bs, j, Hi(pos))
    {
      assert k < j ==> bs[k] in bs[..j];
    }
  }
}
