/** The in-process byte cache: chunks of immutable objects per path, under a byte budget. */
module ByteCache {
  import opened Common
  import opened RangeMerge

  type Bytes = seq<bv8>

  /** A logical path and the credential fingerprint it is read under. */
  datatype PathCredKey = PathCredKey(path: string, cred: nat)

  datatype CachedChunk = CachedChunk(range: Range, data: Bytes)

  /** The bytes of `object` inside `range`; a range may run past the end. */
  function ReadAt(content: Bytes, range: Range): Bytes
    requires range.start <= range.end
  {
    content[Min(range.start, |content|)..Min(range.end, |content|)]
  }

  // ----- lookups in the chunks of one path -----

  function SliceCachedRange(chunk: CachedChunk, want: Range): Option<Bytes>
    requires want.start <= want.end
  {
    if chunk.range.start <= want.start && chunk.range.end >= want.end then
      var start, len := want.start - chunk.range.start, want.end - want.start;
      if start + len <= |chunk.data| then Some(chunk.data[start..start + len]) else None
    else None
  }

  /** The first chunk that can serve the range. */
  function FindRange(chunks: seq<CachedChunk>, want: Range): Option<Bytes>
    requires want.start <= want.end
  {
    if chunks == [] then None
    else
      var slice := SliceCachedRange(chunks[0], want);
      if slice.Some? then slice else FindRange(chunks[1..], want)
  }

  /** The chunk from offset 0 with the largest end; of equals, the last, as `max_by_key` returns. */
  function LongestFromZero(chunks: seq<CachedChunk>): Option<CachedChunk> {
    if chunks == [] then None
    else
      var best, last := LongestFromZero(chunks[..|chunks| - 1]), chunks[|chunks| - 1];
      if last.range.start == 0 && (best.Some? ==> last.range.end >= best.value.range.end) then Some(last) else best
  }

  function FindFullObject(chunks: seq<CachedChunk>): Option<Bytes> {
    var chunk := LongestFromZero(chunks);
    if chunk.Some? then Some(chunk.value.data) else None
  }

  /** Replaces the data of an equal range, else appends. */
  function Insert(chunks: seq<CachedChunk>, chunk: CachedChunk): seq<CachedChunk> {
    if chunks == [] then [chunk]
    else if chunks[0].range == chunk.range then [chunk] + chunks[1..]
    else [chunks[0]] + Insert(chunks[1..], chunk)
  }

  function BytesUsed(chunks: seq<CachedChunk>): nat {
    if chunks == [] then 0 else |chunks[0].data| + BytesUsed(chunks[1..])
  }

  ghost predicate DistinctRanges(chunks: seq<CachedChunk>) {
    forall i, j :: 0 <= i < j < |chunks| ==> chunks[i].range != chunks[j].range
  }

  /** Which chunks there are after an insertion. */
  lemma {:induction false} InsertMembers(chunks: seq<CachedChunk>, chunk: CachedChunk, c: CachedChunk)
    requires DistinctRanges(chunks)
    ensures c in Insert(chunks, chunk) <==> c == chunk || (c in chunks && c.range != chunk.range)
  {
    if chunks != [] {
      assert chunks == [chunks[0]] + chunks[1..];
      if chunks[0].range != chunk.range {
        InsertMembers(chunks[1..], chunk, c);
      }
    }
  }

  /** Inserting keeps ranges distinct and every other chunk, and adds exactly the new one. */
  lemma {:induction false} InsertEffect(chunks: seq<CachedChunk>, chunk: CachedChunk)
    requires DistinctRanges(chunks)
    ensures DistinctRanges(Insert(chunks, chunk))
    ensures forall c :: c in Insert(chunks, chunk) <==> c == chunk || (c in chunks && c.range != chunk.range)
    ensures BytesUsed(Insert(chunks, chunk)) <= BytesUsed(chunks) + |chunk.data|
  {
    forall c
      ensures c in Insert(chunks, chunk) <==> c == chunk || (c in chunks && c.range != chunk.range)
    {
      InsertMembers(chunks, chunk, c);
    }
    if chunks != [] && chunks[0].range != chunk.range {
      var rest := Insert(chunks[1..], chunk);
      InsertEffect(chunks[1..], chunk);
      forall i | 0 <= i < |rest|
        ensures rest[i].range != chunks[0].range
      {
        assert rest[i] in rest;
      }
    }
  }

  /** The chunk holds the bytes of its range, and is not empty. */
  ghost predicate SoundChunk(chunk: CachedChunk, content: Bytes) {
    && chunk.range.start <= chunk.range.end && chunk.data != []
    && chunk.data == ReadAt(content, chunk.range)
  }

  ghost predicate SoundChunks(chunks: seq<CachedChunk>, content: Bytes) {
    forall c :: c in chunks ==> SoundChunk(c, content)
  }

  lemma InsertSound(chunks: seq<CachedChunk>, chunk: CachedChunk, content: Bytes)
    requires DistinctRanges(chunks)
    ensures SoundChunks(chunks, content) && SoundChunk(chunk, content) ==> SoundChunks(Insert(chunks, chunk), content)
  {
    InsertEffect(chunks, chunk);
  }

  /** A chunk can serve a range: it spans it and its data reach that far. */
  ghost predicate Serves(chunk: CachedChunk, want: Range) {
    && chunk.range.start <= want.start && want.end <= chunk.range.end
    && want.end <= chunk.range.start + |chunk.data|
  }

  /** What a chunk serves is the object's own bytes. */
  lemma ServedBytes(chunk: CachedChunk, want: Range, content: Bytes)
    requires SoundChunk(chunk, content) && want.start <= want.end
    ensures SliceCachedRange(chunk, want).Some? <==> Serves(chunk, want)
    ensures Serves(chunk, want) ==>
              want.end <= |content| && SliceCachedRange(chunk, want).value == content[want.start..want.end]
  {
    if Serves(chunk, want) {
      SliceOfSlice(content, chunk.range.start, Min(chunk.range.end, |content|), want);
    }
  }

  lemma SliceOfSlice<T>(content: seq<T>, start: nat, end: nat, want: Range)
    requires start <= want.start <= want.end <= end <= |content|
    ensures content[start..end][want.start - start..want.end - start] == content[want.start..want.end]
  {
    var outer, inner := content[start..end], content[want.start..want.end];
    forall i | 0 <= i < |inner|
      ensures outer[want.start - start..want.end - start][i] == inner[i]
    {
      assert outer[want.start - start + i] == content[want.start + i];
    }
  }

  ghost predicate CanServe(chunks: seq<CachedChunk>, want: Range) {
    exists c :: c in chunks && Serves(c, want)
  }

  /** A lookup hits exactly when some chunk can serve the range, and then returns the object's own bytes. */
  lemma {:induction false} FindRangeExact(chunks: seq<CachedChunk>, want: Range, content: Bytes)
    requires SoundChunks(chunks, content) && want.start <= want.end
    ensures FindRange(chunks, want).Some? <==> CanServe(chunks, want)
    ensures FindRange(chunks, want).Some? ==>
              want.end <= |content| && FindRange(chunks, want).value == content[want.start..want.end]
  {
    if chunks != [] {
      assert chunks == [chunks[0]] + chunks[1..];
      assert SoundChunk(chunks[0], content);
      ServedBytes(chunks[0], want, content);
      if !Serves(chunks[0], want) {
        FindRangeExact(chunks[1..], want, content);
      }
    }
  }

  lemma {:induction false} LongestMember(chunks: seq<CachedChunk>)
    ensures LongestFromZero(chunks).None? <==> forall c :: c in chunks ==> c.range.start != 0
    ensures LongestFromZero(chunks).Some? ==>
              && LongestFromZero(chunks).value in chunks
              && LongestFromZero(chunks).value.range.start == 0
              && forall c :: c in chunks && c.range.start == 0 ==> c.range.end <= LongestFromZero(chunks).value.range.end
  {
    if chunks != [] {
      LongestMember(chunks[..|chunks| - 1]);
      assert chunks == chunks[..|chunks| - 1] + [chunks[|chunks| - 1]];
    }
  }

  /** A chunk from offset 0 whose data reach the end of the object. */
  ghost predicate HoldsWhole(chunks: seq<CachedChunk>, content: Bytes) {
    exists c :: c in chunks && c.range.start == 0 && |c.data| == |content|
  }

  ghost predicate HoldsPrefix(chunks: seq<CachedChunk>) {
    exists c :: c in chunks && c.range.start == 0
  }

  /** Whole-object lookup hits as soon as any chunk starts at 0. It returns a prefix of the object, as long as any
      cached one, and the whole object exactly when some chunk reaches the end. */
  lemma FindFullObjectExact(chunks: seq<CachedChunk>, content: Bytes)
    requires SoundChunks(chunks, content)
    ensures FindFullObject(chunks).Some? <==> HoldsPrefix(chunks)
    ensures FindFullObject(chunks).Some? ==>
              && FindFullObject(chunks).value <= content
              && forall c :: c in chunks && c.range.start == 0 ==> |c.data| <= |FindFullObject(chunks).value|
    ensures FindFullObject(chunks).Some? ==> (FindFullObject(chunks).value == content <==> HoldsWhole(chunks, content))
  {
    LongestMember(chunks);
    var best := LongestFromZero(chunks);
    if best.Some? {
      assert best.value.data == content[..Min(best.value.range.end, |content|)];
      forall c | c in chunks && c.range.start == 0
        ensures |c.data| <= |best.value.data|
      {
        assert c.data == content[..Min(c.range.end, |content|)];
      }
      if HoldsWhole(chunks, content) {
        assert |best.value.data| == |content|;
      }
    }
  }

  /** After a ranged read of its first four bytes only, an eight-byte object is served cut short. */
  lemma PrefixServedAsWhole(content: Bytes)
    requires |content| == 8
    ensures SoundChunks([CachedChunk(Range(0, 4), content[..4])], content)
    ensures FindFullObject([CachedChunk(Range(0, 4), content[..4])]) == Some(content[..4])
    ensures content[..4] != content
  {
    var chunks := [CachedChunk(Range(0, 4), content[..4])];
    assert chunks[..0] == [];
    assert ReadAt(content, Range(0, 4)) == content[..4];
    assert LongestFromZero(chunks) == Some(chunks[0]);
  }

  // ----- accounting over all paths -----

  type Index = map<PathCredKey, seq<CachedChunk>>

  function Without(index: Index, key: PathCredKey): Index {
    index - {key}
  }

  ghost function Total(index: Index): nat
    decreases |index|
  {
    if index == map[] then 0
    else
      var key :| key in index;
      BytesUsed(index[key]) + Total(Without(index, key))
  }

  lemma RemoveKey(index: Index, key: PathCredKey)
    requires key in index
    ensures |Without(index, key)| == |index| - 1
  {
    assert Without(index, key).Keys == index.Keys - {key};
    assert |index.Keys| == |index|;
    assert |Without(index, key).Keys| == |Without(index, key)|;
  }

  /** The total does not depend on the order in which the paths are summed. */
  lemma {:induction false} TotalSplit(index: Index, key: PathCredKey)
    requires key in index
    ensures Total(index) == BytesUsed(index[key]) + Total(Without(index, key))
    decreases |index|
  {
    var first :| first in index && Total(index) == BytesUsed(index[first]) + Total(Without(index, first));
    if first != key {
      RemoveKey(index, first);
      RemoveKey(index, key);
      TotalSplit(Without(index, first), key);
      TotalSplit(Without(index, key), first);
      assert Without(Without(index, first), key) == Without(Without(index, key), first);
    }
  }

  // ----- the cached bytes themselves -----

  /** Byte `j` of chunk `i` of a path. */
  type Place = (PathCredKey, nat, nat)

  ghost function CachedBytes(index: Index): set<Place> {
    set k, i: nat, j: nat | k in index && i < |index[k]| && j < |index[k][i].data| :: (k, i, j)
  }

  ghost function PathBytes(key: PathCredKey, chunks: seq<CachedChunk>): set<Place> {
    set i: nat, j: nat | i < |chunks| && j < |chunks[i].data| :: (key, i, j)
  }

  ghost function ChunkBytes(key: PathCredKey, i: nat, n: nat): set<Place> {
    set j: nat | j < n :: (key, i, j)
  }

  lemma {:induction false} ChunkBytesCount(key: PathCredKey, i: nat, n: nat)
    ensures |ChunkBytes(key, i, n)| == n
  {
    if n > 0 {
      ChunkBytesCount(key, i, n - 1);
      assert ChunkBytes(key, i, n) == ChunkBytes(key, i, n - 1) + {(key, i, n - 1)};
    } else {
      assert ChunkBytes(key, i, n) == {};
    }
  }

  lemma {:induction false} BytesUsedConcat(a: seq<CachedChunk>, b: seq<CachedChunk>)
    ensures BytesUsed(a + b) == BytesUsed(a) + BytesUsed(b)
  {
    if a == [] {
      assert a + b == b;
    } else {
      BytesUsedConcat(a[1..], b);
      assert (a + b)[0] == a[0] && (a + b)[1..] == a[1..] + b;
    }
  }

  /** The bytes of a path are those of all its chunks. */
  lemma {:induction false} PathBytesCount(key: PathCredKey, chunks: seq<CachedChunk>)
    ensures |PathBytes(key, chunks)| == BytesUsed(chunks)
  {
    if chunks == [] {
      assert PathBytes(key, chunks) == {};
    } else {
      var front, last := chunks[..|chunks| - 1], chunks[|chunks| - 1];
      PathBytesCount(key, front);
      ChunkBytesCount(key, |front|, |last.data|);
      BytesUsedConcat(front, [last]);
      assert BytesUsed([last]) == |last.data|;
      assert chunks == front + [last];
      assert PathBytes(key, chunks) == PathBytes(key, front) + ChunkBytes(key, |front|, |last.data|);
    }
  }

  /** The total is the number of cached bytes. */
  lemma {:induction false} CachedBytesCount(index: Index)
    ensures |CachedBytes(index)| == Total(index)
    decreases |index|
  {
    if index == map[] {
      assert CachedBytes(index) == {};
    } else {
      var key :| key in index;
      RemoveKey(index, key);
      TotalSplit(index, key);
      CachedBytesCount(Without(index, key));
      PathBytesCount(key, index[key]);
      PathSplit(index, key);
    }
  }

  lemma PathSplit(index: Index, key: PathCredKey)
    requires key in index
    ensures |CachedBytes(index)| == |PathBytes(key, index[key])| + |CachedBytes(Without(index, key))|
  {
    var here, others := PathBytes(key, index[key]), CachedBytes(Without(index, key));
    assert here !! others;
    assert CachedBytes(index) == here + others;
  }

  function ChunksOf(index: Index, key: PathCredKey): seq<CachedChunk> {
    if key in index then index[key] else []
  }

  function InsertChunk(index: Index, key: PathCredKey, chunk: CachedChunk): Index {
    index[key := Insert(ChunksOf(index, key), chunk)]
  }

  ghost predicate AllDistinct(index: Index) {
    forall k :: k in index ==> DistinctRanges(index[k])
  }

  ghost predicate AllSound(index: Index, objects: string -> Bytes) {
    forall k :: k in index ==> SoundChunks(index[k], objects(k.path))
  }

  ghost predicate SubIndex(small: Index, big: Index) {
    forall k :: k in small ==> k in big && small[k] == big[k]
  }

  /** Some path is gone that would take `needed` over the budget if it were kept. */
  ghost predicate StillInTheWay(before: Index, after: Index, needed: nat, budget: nat) {
    exists k :: k in before && k !in after && needed + BytesUsed(before[k]) > budget
  }

  /** Whole paths are dropped so that `incoming` more bytes fit, and none when they fit as it is. The budget is missed
      only by an empty cache, and the last path dropped was still in the way. */
  ghost predicate Evicted(before: Index, after: Index, incoming: nat, budget: nat) {
    && SubIndex(after, before)
    && (Total(before) + incoming <= budget ==> after == before)
    && (Total(after) + incoming <= budget || |after| == 0)
    && (Total(before) + incoming > budget && |before| > 0 ==>
          StillInTheWay(before, after, Total(after) + incoming, budget))
  }

  lemma SubIndexSelf(index: Index)
    ensures SubIndex(index, index)
  {
  }

  lemma SubIndexDistinct(small: Index, big: Index)
    requires SubIndex(small, big)
    ensures AllDistinct(big) ==> AllDistinct(small)
    ensures forall objects :: AllSound(big, objects) ==> AllSound(small, objects)
  {
  }

  /** Dropping one more path, whose bytes would not have fit. */
  lemma DropKey(before: Index, rest: Index, key: PathCredKey, incoming: nat, budget: nat)
    requires SubIndex(rest, before) && key in rest && Total(rest) + incoming > budget
    ensures |Without(rest, key)| < |rest| && SubIndex(Without(rest, key), before)
    ensures Total(Without(rest, key)) == Total(rest) - BytesUsed(rest[key])
    ensures StillInTheWay(before, Without(rest, key), Total(Without(rest, key)) + incoming, budget)
  {
    TotalSplit(rest, key);
    RemoveKey(rest, key);
  }

  function SaturatingSub(a: nat, b: nat): nat {
    if b <= a then a - b else 0
  }

  lemma InsertChunkTotal(index: Index, key: PathCredKey, chunk: CachedChunk)
    requires DistinctRanges(ChunksOf(index, key))
    ensures Total(InsertChunk(index, key, chunk)) <= Total(index) + |chunk.data|
  {
    InsertEffect(ChunksOf(index, key), chunk);
    var next := InsertChunk(index, key, chunk);
    TotalSplit(next, key);
    assert Without(next, key) == Without(index, key);
    if key in index {
      TotalSplit(index, key);
    } else {
      assert Without(index, key) == index;
    }
  }

  /** The chunk is added to what some eviction has left. */
  ghost predicate PutInto(before: Index, after: Index, key: PathCredKey, chunk: CachedChunk, budget: nat) {
    exists kept :: Evicted(before, kept, |chunk.data|, budget) && after == InsertChunk(kept, key, chunk)
  }

  /** What is there now was there before, but for the new chunk. */
  ghost predicate Adds(before: Index, after: Index, key: PathCredKey, chunk: CachedChunk) {
    && (forall k :: k in after && k != key ==> k in before && after[k] == before[k])
    && forall c :: c in ChunksOf(after, key) ==> c == chunk || c in ChunksOf(before, key)
  }

  /** What was there is there, but for the chunk of the same range. */
  ghost predicate Keeps(before: Index, after: Index, key: PathCredKey, chunk: CachedChunk) {
    && (forall k :: k in before && k != key ==> k in after)
    && forall c :: c in ChunksOf(before, key) && c.range != chunk.range ==> c in ChunksOf(after, key)
  }

  ghost predicate HoldsOnly(index: Index, key: PathCredKey, chunk: CachedChunk) {
    index == map[key := [chunk]]
  }

  /** Adding a chunk to a path after eviction. */
  lemma InsertChunkKeeps(before: Index, kept: Index, key: PathCredKey, chunk: CachedChunk, budget: nat,
                         objects: string -> Bytes)
    requires AllDistinct(kept) && Evicted(before, kept, |chunk.data|, budget)
    ensures var next := InsertChunk(kept, key, chunk);
            && AllDistinct(next)
            && PutInto(before, next, key, chunk, budget)
            && chunk in ChunksOf(next, key)
            && (Total(next) <= budget || HoldsOnly(next, key, chunk))
            && (AllSound(kept, objects) && SoundChunk(chunk, objects(key.path)) ==> AllSound(next, objects))
  {
    var chunks := ChunksOf(kept, key);
    InsertFirst(chunk, objects(key.path));
    InsertEffect(chunks, chunk);
    InsertSound(chunks, chunk, objects(key.path));
    InsertChunkTotal(kept, key, chunk);
    hide Total, Insert, BytesUsed, SoundChunks;
  }

  lemma InsertedOnly(kept: Index, key: PathCredKey, chunk: CachedChunk)
    requires DistinctRanges(ChunksOf(kept, key))
    ensures Adds(kept, InsertChunk(kept, key, chunk), key, chunk) && Keeps(kept, InsertChunk(kept, key, chunk), key, chunk)
  {
    var next, chunks := InsertChunk(kept, key, chunk), ChunksOf(kept, key);
    forall c
      ensures c in ChunksOf(next, key) <==> c == chunk || (c in chunks && c.range != chunk.range)
    {
      InsertMembers(chunks, chunk, c);
    }
    hide Insert, DistinctRanges;
  }

  /** Nothing else is added, and nothing but the chunk of the same range goes unless something had to be dropped. */
  lemma InsertChunkOthers(before: Index, kept: Index, key: PathCredKey, chunk: CachedChunk, budget: nat)
    requires AllDistinct(kept) && Evicted(before, kept, |chunk.data|, budget)
    ensures Adds(before, InsertChunk(kept, key, chunk), key, chunk)
    ensures Total(before) + |chunk.data| <= budget ==> Keeps(before, InsertChunk(kept, key, chunk), key, chunk)
  {
    assert DistinctRanges(ChunksOf(kept, key));
    InsertedOnly(kept, key, chunk);
    hide Total, InsertChunk, DistinctRanges, AllDistinct, StillInTheWay;
  }

  lemma InsertFirst(chunk: CachedChunk, content: Bytes)
    ensures Insert([], chunk) == [chunk] && SoundChunks([], content)
  {
  }

  lemma EnoughDropped(before: Index, after: Index, incoming: nat, budget: nat)
    requires SubIndex(after, before) && Total(before) + incoming > budget
    requires Total(after) + incoming <= budget || |after| == 0
    requires |before| > 0 ==> StillInTheWay(before, after, Total(after) + incoming, budget)
    ensures Evicted(before, after, incoming, budget)
  {
  }

  /** The eviction loop: whole paths go, in any order, while the bytes do not fit. */
  method DropPaths(index: Index, used: nat, incoming: nat, maxBytes: nat) returns (paths: Index, left: nat)
    requires used == Total(index) && used + incoming > maxBytes
    ensures left == Total(paths) && Evicted(index, paths, incoming, maxBytes)
  {
    hide Total, BytesUsed, StillInTheWay, SubIndex, Evicted, Without;
    paths, left := index, used;
    SubIndexSelf(index);
    ghost var dropped := false;
    while left + incoming > maxBytes && |paths| > 0
      invariant left == Total(paths) && SubIndex(paths, index)
      invariant if dropped then StillInTheWay(index, paths, left + incoming, maxBytes)
                else left == used && |paths| == |index|
      decreases |paths|
    {
      var key :| key in paths;
      DropKey(index, paths, key, incoming, maxBytes);
      left := SaturatingSub(left, BytesUsed(paths[key]));
      paths, dropped := Without(paths, key), true;
    }
    EnoughDropped(index, paths, incoming, maxBytes);
  }

  class MemoryByteCache {
    var byPath: Index
    var bytesUsed: nat
    const maxBytes: nat
    /** The immutable objects the cache speeds up. */
    ghost const objects: string -> Bytes

    ghost predicate Valid()
      reads this
    {
      && bytesUsed == Total(byPath)
      && AllDistinct(byPath)
    }

    ghost predicate Sound()
      reads this
    {
      AllSound(byPath, objects)
    }

    constructor (maxBytes: nat, ghost objects: string -> Bytes)
      ensures Valid() && Sound() && byPath == map[] && bytesUsed == 0
      ensures this.maxBytes == maxBytes && this.objects == objects
    {
      byPath, bytesUsed := map[], 0;
      this.maxBytes, this.objects := maxBytes, objects;
    }

    method EvictIfNeeded(incoming: nat)
      requires Valid()
      modifies this
      ensures Valid()
      ensures Evicted(old(byPath), byPath, incoming, maxBytes)
      ensures |CachedBytes(old(byPath))| + incoming <= maxBytes ==> byPath == old(byPath)
      ensures |CachedBytes(byPath)| + incoming <= maxBytes || byPath == map[]
      ensures old(Sound()) ==> Sound()
    {
      hide Total, AllDistinct, AllSound, CachedBytes;
      CachedBytesCount(byPath);
      SubIndexSelf(byPath);
      if bytesUsed + incoming <= maxBytes {
        return;
      }
      var paths, used := DropPaths(byPath, bytesUsed, incoming, maxBytes);
      SubIndexDistinct(paths, byPath);
      CachedBytesCount(paths);
      byPath, bytesUsed := paths, used;
    }

    /** Adds one chunk to what eviction left, keeps the books, and stays within the budget unless the new chunk is all
        the cache holds. */
    method Put(key: PathCredKey, range: Range, data: Bytes)
      requires Valid()
      modifies this
      ensures Valid()
      ensures data == [] ==> byPath == old(byPath)
      ensures data != [] ==> PutInto(old(byPath), byPath, key, CachedChunk(range, data), maxBytes)
      ensures data != [] ==> CachedChunk(range, data) in ChunksOf(byPath, key)
      ensures bytesUsed == |CachedBytes(byPath)|
      ensures data != [] ==> |CachedBytes(byPath)| <= maxBytes || HoldsOnly(byPath, key, CachedChunk(range, data))
      ensures data != [] ==> Adds(old(byPath), byPath, key, CachedChunk(range, data))
      ensures data != [] && |CachedBytes(old(byPath))| + |data| <= maxBytes ==>
                Keeps(old(byPath), byPath, key, CachedChunk(range, data))
      ensures old(Sound()) && SoundChunk(CachedChunk(range, data), objects(key.path)) ==> Sound()
    {
      hide Total, InsertChunk, AllDistinct, AllSound, SoundChunk, ChunksOf, Evicted, PutInto, HoldsOnly, CachedBytes;
      hide Adds, Keeps;
      CachedBytesCount(byPath);
      if data == [] {
        return;
      }
      EvictIfNeeded(|data|);
      var chunk := CachedChunk(range, data);
      InsertChunkKeeps(old(byPath), byPath, key, chunk, maxBytes, objects);
      InsertChunkOthers(old(byPath), byPath, key, chunk, maxBytes);
      byPath := InsertChunk(byPath, key, chunk);
      CachedBytesCount(byPath);
      bytesUsed := SumBytes(byPath);
    }

    /** A hit is exactly the object's bytes; there is a hit exactly when some cached chunk can serve the range. */
    method GetRange(key: PathCredKey, want: Range) returns (r: Option<Bytes>)
      requires Sound() && want.start <= want.end
      ensures r.Some? <==> CanServe(ChunksOf(byPath, key), want)
      ensures r.Some? ==> want.end <= |objects(key.path)| && r.value == objects(key.path)[want.start..want.end]
    {
      FindRangeExact(ChunksOf(byPath, key), want, objects(key.path));
      r := if key in byPath then FindRange(byPath[key], want) else None;
    }

    /** A hit is the longest cached prefix of the object, whole or not. */
    method GetFullObject(key: PathCredKey) returns (r: Option<Bytes>)
      requires Sound()
      ensures r.Some? <==> HoldsPrefix(ChunksOf(byPath, key))
      ensures r.Some? ==> r.value <= objects(key.path)
      ensures r.Some? ==> (r.value == objects(key.path) <==> HoldsWhole(ChunksOf(byPath, key), objects(key.path)))
    {
      FindFullObjectExact(ChunksOf(byPath, key), objects(key.path));
      r := if key in byPath then FindFullObject(byPath[key]) else None;
    }
  }

  /** The sum over all paths, taken in any order. */
  method SumBytes(index: Index) returns (total: nat)
    ensures total == Total(index)
  {
    total := 0;
    var rest := index;
    while rest != map[]
      invariant total + Total(rest) == Total(index)
      decreases |rest|
    {
      var key :| key in rest;
      TotalSplit(rest, key);
      RemoveKey(rest, key);
      total := total + BytesUsed(rest[key]);
      rest := Without(rest, key);
    }
  }
}
