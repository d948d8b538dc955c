/** Reads through the byte cache: ranged reads, coalesced multi-range reads and whole-object reads. */
module CachedReads {
  import opened Common
  import opened RangeMerge
  import opened ByteCache

  /** What may go wrong with one read: the query has been cancelled, or the uncached store fails. */
  datatype Fault = NoFault | Cancelled | StoreFails

  /** The uncached store. */
  function InnerRead(content: Bytes, range: Range, fault: Fault): Result<Bytes>
    requires range.start <= range.end
  {
    if fault.StoreFails? then Err(IoFailure) else Ok(ReadAt(content, range))
  }

  /** A read in flight: it looks in the cache, and after a miss it waits for the store. */
  datatype Progress = Queued | Missed | Finished(result: Result<Bytes>)

  /** A reader of one object through a shared cache. */
  class CachingFileRead {
    const key: PathCredKey
    const content: Bytes
    const cache: MemoryByteCache

    ghost predicate Valid()
      reads this, cache
    {
      cache.Valid() && cache.Sound() && content == cache.objects(key.path)
    }

    constructor (cache: MemoryByteCache, key: PathCredKey, content: Bytes)
      requires cache.Valid() && cache.Sound() && content == cache.objects(key.path)
      ensures Valid() && this.cache == cache && this.key == key && this.content == content
    {
      this.cache, this.key, this.content := cache, key, content;
    }

    /** The first step of a read. A hit is the object's bytes, whatever has been evicted. */
    method LookUp(range: Range, fault: Fault) returns (p: Progress)
      requires Valid() && range.start <= range.end
      ensures p == if fault.Cancelled? then Finished(Err(Unexpected))
                   else if CanServe(ChunksOf(cache.byPath, key), range) then Finished(Ok(ReadAt(content, range)))
                   else Missed
    {
      hide ChunksOf, CanServe;
      if fault.Cancelled? {
        return Finished(Err(Unexpected));
      }
      var hit := cache.GetRange(key, range);
      p := if hit.Some? then Finished(Ok(hit.value)) else Missed;
    }

    /** The second, after a miss. What has been read is cached under its range, whatever others have cached or evicted
        since. */
    method Fetch(range: Range, fault: Fault) returns (r: Result<Bytes>)
      requires Valid() && range.start <= range.end
      modifies cache
      ensures Valid() && r == InnerRead(content, range, fault)
      ensures r.Err? ==> cache.byPath == old(cache.byPath)
      ensures r.Ok? && r.value != [] ==> CachedChunk(range, r.value) in ChunksOf(cache.byPath, key)
    {
      hide ChunksOf;
      r := InnerRead(content, range, fault);
      if r.Ok? && r.value != [] {
        cache.Put(key, range, r.value);
      }
    }

    /** Both, undisturbed. A hit needs no store and leaves the cache alone; what a miss has read is cached under its
        range. */
    method Read(range: Range, fault: Fault) returns (r: Result<Bytes>)
      requires Valid() && range.start <= range.end
      modifies cache
      ensures Valid()
      ensures r.Err? <==> fault.Cancelled? || (fault.StoreFails? && !CanServe(old(ChunksOf(cache.byPath, key)), range))
      ensures r.Ok? ==> r.value == ReadAt(content, range)
      ensures r.Err? || CanServe(old(ChunksOf(cache.byPath, key)), range) ==> cache.byPath == old(cache.byPath)
      ensures r.Ok? && r.value != [] && !CanServe(old(ChunksOf(cache.byPath, key)), range) ==>
                CachedChunk(range, r.value) in ChunksOf(cache.byPath, key)
    {
      hide ChunksOf, CanServe, ReadAt, MemoryByteCache.Valid, MemoryByteCache.Sound;
      var p := LookUp(range, fault);
      if p.Finished? {
        return p.result;
      }
      r := Fetch(range, fault);
    }
  }

  /** `partition_point(|v| v.start <= x)`: how many leading ranges start at or before `x`. */
  function PartitionPoint(rs: seq<Range>, x: nat): (n: nat)
    ensures n <= |rs|
    ensures forall i :: 0 <= i < n ==> rs[i].start <= x
    ensures n < |rs| ==> rs[n].start > x
  {
    if rs == [] || rs[0].start > x then 0 else 1 + PartitionPoint(rs[1..], x)
  }

  /** The fetch range looked up for a request exists and holds the whole request. */
  lemma RequestLiesInFetch(fetches: seq<Range>, requests: seq<Range>, gap: nat, i: nat)
    requires Canonical(fetches, requests, gap) && AllWellFormed(requests) && i < |requests|
    ensures var n := PartitionPoint(fetches, requests[i].start);
            n > 0 && Inside(fetches[n - 1], requests[i])
  {
    hide Covered, SameCover;
    var n := PartitionPoint(fetches, requests[i].start);
    var k := Contained(fetches, requests, gap, i);
    assert requests[i].WellFormed() && fetches[k].WellFormed();
    assert k < n;
    assert k + 1 < |fetches| ==> fetches[k + 1].start > requests[i].start;
  }

  lemma FetchInBounds(fetches: seq<Range>, requests: seq<Range>, gap: nat, size: nat, k: nat)
    requires Canonical(fetches, requests, gap) && AllWellFormed(requests) && k < |fetches|
    requires forall i :: 0 <= i < |requests| ==> requests[i].end <= size
    ensures fetches[k].start <= fetches[k].end <= size
  {
    Tight(fetches, requests, gap, k);
    assert fetches[k].WellFormed();
  }

  // ----- several reads in flight -----

  /** What happens next: the read of a fetch range makes a step, or somebody else caches a chunk. */
  datatype Event = Advance(k: nat) | Elsewhere(key: PathCredKey, chunk: CachedChunk)

  /** How many results have been handed on: those before the first read that has not succeeded. */
  function Emitted(flight: seq<Progress>): (n: nat)
    ensures n <= |flight|
    ensures forall k :: 0 <= k < n ==> flight[k].Finished? && flight[k].result.Ok?
    ensures n < |flight| ==> !(flight[n].Finished? && flight[n].result.Ok?)
  {
    if flight != [] && flight[0].Finished? && flight[0].result.Ok? then 1 + Emitted(flight[1..]) else 0
  }

  /** How far a read may be. Its result does not depend on what happens to the cache. */
  ghost predicate Sensible(content: Bytes, range: Range, fault: Fault, p: Progress)
    requires range.start <= range.end
  {
    match p
    case Queued => true
    case Missed => !fault.Cancelled?
    case Finished(Ok(data)) => !fault.Cancelled? && data == ReadAt(content, range)
    case Finished(Err(_)) => !fault.NoFault?
  }

  ghost predicate AllSensible(content: Bytes, fetches: seq<Range>, faults: nat -> Fault, flight: seq<Progress>) {
    && |flight| == |fetches|
    && forall k :: 0 <= k < |fetches| ==>
         fetches[k].start <= fetches[k].end && Sensible(content, fetches[k], faults(k), flight[k])
  }

  /** No read is under way beyond the first `n` that have not been handed on. */
  ghost predicate Windowed(flight: seq<Progress>, n: nat) {
    forall k :: Emitted(flight) + n <= k < |flight| ==> flight[k].Queued?
  }

  lemma EmittedGrows(flight: seq<Progress>, k: nat, next: Progress)
    requires k < |flight| && (flight[k].Finished? ==> next == flight[k])
    ensures Emitted(flight) <= Emitted(flight[k := next])
  {
    var after := flight[k := next];
    assert forall j :: 0 <= j < Emitted(flight) ==> after[j] == flight[j];
  }

  lemma NothingUnderWay(flight: seq<Progress>, n: nat)
    requires forall k :: 0 <= k < |flight| ==> flight[k].Queued?
    ensures Windowed(flight, n)
  {
  }

  class ArrowFileReader {
    const r: CachingFileRead
    const rangeCoalesceBytes: nat
    const rangeFetchConcurrency: nat

    constructor (r: CachingFileRead, rangeCoalesceBytes: nat, rangeFetchConcurrency: nat)
      ensures this.r == r && this.rangeCoalesceBytes == rangeCoalesceBytes
      ensures this.rangeFetchConcurrency == rangeFetchConcurrency
    {
      this.r, this.rangeCoalesceBytes, this.rangeFetchConcurrency := r, rangeCoalesceBytes, rangeFetchConcurrency;
    }

    /** One step of one read. */
    method Step(range: Range, fault: Fault, p: Progress) returns (next: Progress)
      requires r.Valid() && range.start <= range.end && Sensible(r.content, range, fault, p)
      modifies r.cache
      ensures r.Valid() && Sensible(r.content, range, fault, next)
      ensures match p
              case Queued => !next.Queued?
              case Missed => next.Finished?
              case Finished(_) => next == p
    {
      hide ReadAt, MemoryByteCache.Valid, MemoryByteCache.Sound, CanServe, ChunksOf;
      match p {
        case Queued => next := r.LookUp(range, fault);
        case Missed =>
          var data := r.Fetch(range, fault);
          next := Finished(data);
        case Finished(_) => next := p;
      }
    }

    /** Read `k` makes a step if it is within the window of `rangeFetchConcurrency`, at least 1, and otherwise nothing
        happens. */
    method Turn(fetches: seq<Range>, faults: nat -> Fault, flight: seq<Progress>, k: nat) returns (after: seq<Progress>)
      requires r.Valid() && AllSensible(r.content, fetches, faults, flight)
      requires Windowed(flight, Max(rangeFetchConcurrency, 1))
      modifies r.cache
      ensures r.Valid() && AllSensible(r.content, fetches, faults, after)
      ensures Windowed(after, Max(rangeFetchConcurrency, 1))
      ensures k < |flight| && k < Emitted(flight) + Max(rangeFetchConcurrency, 1) ==>
                (flight[k].Queued? ==> !after[k].Queued?) && (flight[k].Missed? ==> after[k].Finished?)
      ensures forall j :: 0 <= j < |flight| && j != k ==> after[j] == flight[j]
    {
      after := flight;
      if k < |flight| && k < Emitted(flight) + Max(rangeFetchConcurrency, 1) {
        hide ReadAt, MemoryByteCache.Valid, MemoryByteCache.Sound, Sensible, Emitted;
        var next := Step(fetches[k], faults(k), flight[k]);
        EmittedGrows(flight, k, next);
        after := flight[k := next];
      }
    }

    /** All fetch ranges, at most `rangeFetchConcurrency` of them in flight: reads make steps as `schedule` says, and
        once it has run out the remaining ones are finished in order. The first failure, in the order of the ranges, is
        returned. Whatever the schedule, the data is the object's, and without a fault there is no failure. */
    method FetchBuffered(fetches: seq<Range>, faults: nat -> Fault, schedule: seq<Event>) returns (result: Result<seq<Bytes>>)
      requires r.Valid() && forall k :: 0 <= k < |fetches| ==> fetches[k].start <= fetches[k].end
      requires forall e :: e in schedule && e.Elsewhere? ==> SoundChunk(e.chunk, r.cache.objects(e.key.path))
      modifies r.cache
      ensures r.Valid()
      ensures result.Ok? ==> Fetched(r.content, fetches, result.value)
      ensures result.Err? ==> exists k :: 0 <= k < |fetches| && !faults(k).NoFault?
      ensures result.Ok? ==> forall k :: 0 <= k < |fetches| ==> !faults(k).Cancelled?
    {
      var flight := seq(|fetches|, _ => Queued);
      assert AllSensible(r.content, fetches, faults, flight);
      NothingUnderWay(flight, Max(rangeFetchConcurrency, 1));
      hide ReadAt, MemoryByteCache.Valid, MemoryByteCache.Sound, SoundChunk, Sensible, Emitted, Fetched, Windowed;
      NothingFetched(r.content);
      for i := 0 to |schedule|
        invariant r.Valid() && AllSensible(r.content, fetches, faults, flight)
        invariant Windowed(flight, Max(rangeFetchConcurrency, 1))
      {
        match schedule[i] {
          case Advance(k) =>
            flight := Turn(fetches, faults, flight, k);
          case Elsewhere(key, chunk) =>
            assert schedule[i] in schedule;
            r.cache.Put(key, chunk.range, chunk.data);
        }
      }
      var fetched: seq<Bytes> := [];
      for k := 0 to |fetches|
        invariant r.Valid() && AllSensible(r.content, fetches, faults, flight)
        invariant Fetched(r.content, fetches[..k], fetched)
        invariant forall j :: 0 <= j < k ==> !faults(j).Cancelled?
      {
        var p := Step(fetches[k], faults(k), flight[k]);
        p := Step(fetches[k], faults(k), p);
        assert p.Finished?;
        FinishedMeans(r.content, fetches[k], faults(k), p);
        if p.result.Err? {
          return Err(p.result.error);
        }
        FetchedSnoc(r.content, fetches[..k], fetched, fetches[k], p.result.value);
        fetched := fetched + [p.result.value];
        assert fetches[..k + 1] == fetches[..k] + [fetches[k]];
      }
      assert fetches[..|fetches|] == fetches;
      result := Ok(fetched);
    }

    /** Whatever is cached or evicted meanwhile and however the reads interleave, success means the requested bytes as
        far as the object goes, and only a fault of some read, `faults(k)` of read number k, prevents it. A request that
        starts beyond the end of the object would be cut out of data that does not reach that far, and panic. */
    method GetByteRanges(ranges: seq<Range>, faults: nat -> Fault, schedule: seq<Event>) returns (result: Result<seq<Bytes>>)
      requires r.Valid()
      requires forall i :: 0 <= i < |ranges| ==> ranges[i].start <= ranges[i].end && ranges[i].start <= |r.content|
      requires forall e :: e in schedule && e.Elsewhere? ==> SoundChunk(e.chunk, r.cache.objects(e.key.path))
      modifies r.cache
      ensures r.Valid()
      ensures (forall k :: faults(k).NoFault?) ==> result.Ok?
      ensures result.Ok? ==> |result.value| == |ranges|
      ensures result.Ok? ==> forall i :: 0 <= i < |ranges| ==> result.value[i] == ReadAt(r.content, ranges[i])
    {
      var fetchRanges := MergeRanges(ranges, rangeCoalesceBytes);
      assert forall k :: 0 <= k < |fetchRanges| ==> fetchRanges[k].WellFormed();
      hide Canonical, ReadAt, MemoryByteCache.Valid, MemoryByteCache.Sound, SoundChunk;
      var fetched := FetchBuffered(fetchRanges, faults, schedule);
      if fetched.Err? {
        return Err(fetched.error);
      }
      var slices := SliceRequests(r.content, fetchRanges, fetched.value, ranges, rangeCoalesceBytes);
      result := Ok(slices);
    }
  }

  lemma FinishedMeans(content: Bytes, range: Range, fault: Fault, p: Progress)
    requires range.start <= range.end && p.Finished? && Sensible(content, range, fault, p)
    ensures if p.result.Ok? then !fault.Cancelled? && p.result.value == ReadAt(content, range) else !fault.NoFault?
  {
  }

  /** One piece of data for each fetch range. */
  ghost predicate Fetched(content: Bytes, fetches: seq<Range>, data: seq<Bytes>) {
    && |data| == |fetches|
    && forall k :: 0 <= k < |fetches| ==>
         fetches[k].start <= fetches[k].end && data[k] == ReadAt(content, fetches[k])
  }

  lemma NothingFetched(content: Bytes)
    ensures Fetched(content, [], [])
  {
  }

  lemma FetchedSnoc(content: Bytes, fetches: seq<Range>, data: seq<Bytes>, fetch: Range, bytes: Bytes)
    requires Fetched(content, fetches, data) && fetch.start <= fetch.end && bytes == ReadAt(content, fetch)
    ensures Fetched(content, fetches + [fetch], data + [bytes])
  {
    hide ReadAt;
  }

  /** Cutting a request out of the data of its fetch range. */
  lemma SliceOfFetch(content: Bytes, fetch: Range, want: Range)
    requires fetch.start <= fetch.end && Inside(fetch, want) && want.start <= want.end && want.start <= |content|
    ensures var data := ReadAt(content, fetch);
            && want.start - fetch.start <= Min(want.end - fetch.start, |data|) <= |data|
            && data[want.start - fetch.start..Min(want.end - fetch.start, |data|)] == ReadAt(content, want)
  {
    var data, lo, hi, end := ReadAt(content, fetch), fetch.start, Min(fetch.end, |content|), Min(want.end, |content|);
    assert data == content[lo..hi] && ReadAt(content, want) == content[want.start..end];
    assert Min(want.end - lo, |data|) == end - lo;
    hide *;
    SliceOfSlice(content, lo, hi, Range(want.start, end));
  }

  /** Slicing the fetched data back into the requested ranges. */
  method SliceRequests(content: Bytes, fetchRanges: seq<Range>, fetched: seq<Bytes>, ranges: seq<Range>, ghost gap: nat)
    returns (slices: seq<Bytes>)
    requires Canonical(fetchRanges, ranges, gap) && Fetched(content, fetchRanges, fetched)
    requires forall i :: 0 <= i < |ranges| ==> ranges[i].start <= ranges[i].end && ranges[i].start <= |content|
    ensures |slices| == |ranges|
    ensures forall i :: 0 <= i < |ranges| ==> slices[i] == ReadAt(content, ranges[i])
  {
    hide Canonical, ReadAt;
    slices := [];
    for i := 0 to |ranges|
      invariant |slices| == i
      invariant forall j :: 0 <= j < i ==> slices[j] == ReadAt(content, ranges[j])
    {
      RequestLiesInFetch(fetchRanges, ranges, gap, i);
      var idx := PartitionPoint(fetchRanges, ranges[i].start) - 1;
      var start, end := ranges[i].start - fetchRanges[idx].start, ranges[i].end - fetchRanges[idx].start;
      SliceOfFetch(content, fetchRanges[idx], ranges[i]);
      slices := slices + [fetched[idx][start..Min(end, |fetched[idx]|)]];
    }
  }

  class CachingStorage {
    const cache: MemoryByteCache
    const credFp: nat

    constructor (cache: MemoryByteCache, credFp: nat)
      ensures this.cache == cache && this.credFp == credFp
    {
      this.cache, this.credFp := cache, credFp;
    }

    /** A whole-object read that succeeds returns a prefix of the object. It returns the object itself exactly when,
        before the call, no chunk of the path started at 0 or one of them reached the end. After a miss the whole object
        is cached. */
    method Read(path: string, content: Bytes, fault: Fault) returns (r: Result<Bytes>)
      requires cache.Valid() && cache.Sound() && content == cache.objects(path)
      modifies cache
      ensures cache.Valid() && cache.Sound()
      ensures var chunks := ChunksOf(old(cache.byPath), PathCredKey(path, credFp));
              && (r.Err? <==> fault.Cancelled? || (fault.StoreFails? && !HoldsPrefix(chunks)))
              && (r.Ok? ==> r.value <= content)
              && (r.Ok? ==> (r.value == content <==> (HoldsPrefix(chunks) ==> HoldsWhole(chunks, content))))
              && (r.Ok? && !HoldsPrefix(chunks) && content != [] ==>
                    HoldsWhole(ChunksOf(cache.byPath, PathCredKey(path, credFp)), content))
    {
      if fault.Cancelled? {
        return Err(Unexpected);
      }
      var key := PathCredKey(path, credFp);
      var full := cache.GetFullObject(key);
      if full.Some? {
        return Ok(full.value);
      }
      var size := |content|;
      if size == 0 {
        r := InnerRead(content, Range(0, 0), fault);
        return;
      }
      var hit := cache.GetRange(key, Range(0, size));
      if hit.Some? {
        // no chunk can serve the whole object without starting at 0
        assert false;
      }
      r := InnerRead(content, Range(0, size), fault);
      if r.Ok? && r.value != [] {
        cache.Put(key, Range(0, size), r.value);
      }
    }
  }
}
