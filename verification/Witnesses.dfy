/**
 Concrete runs and states in which the allocator falls short of its promise, one
 for each condition that is proved exact elsewhere.
 */
module Witnesses {
  import opened Words
  import opened Sizes
  import opened Links
  import opened Bins
  import opened FreeIndex
  import opened Chunks
  import opened PoolState
  import opened Conservation
  import opened BestFit
  import opened ReallocState
  import opened Pool
  import PoolRuns
  import opened AreaSplit
  import opened AreaRing

  lemma OneFreeChunk(h: Heap, a: Area)
    requires Tiled(h, [a]) && Coalesced(h) && Live(h) == map[]
    ensures h == map[a.First() := Chunk(a.size, false, a)] && FreeMap(h) == map[a.First() := a.size]
  {
    EmptyPool(h, [a]);
    assert a in [a];
    assert forall c :: c in h ==> c == a.First();
  }

  /** An area of two chunks, one of them in use. */
  function TwoChunks(a: Area, s: int, used: bool): Heap {
    map[a.First() := Chunk(s, used, a), a.First() + s := Chunk(a.size - s, !used, a)]
  }

  lemma TwoChunksTiled(a: Area, s: int, used: bool)
    requires AreaOk(a) && s % 64 == 0 && MIN_ALLOC <= s && s + MIN_ALLOC <= a.size
    ensures Tiled(TwoChunks(a, s, used), [a]) && Coalesced(TwoChunks(a, s, used))
    ensures Live(TwoChunks(a, s, used)) == if used then map[a.First() := s] else map[a.First() + s := a.size - s]
    ensures FreeMap(TwoChunks(a, s, used)) == if used then map[a.First() + s := a.size - s] else map[a.First() := s]
  {
    hide Tiled, TwoChunks, Split, Live, FreeMap, Coalesced;
    var whole := map[a.First() := Chunk(a.size, true, a)];
    OneChunkTiled(a);
    SplitTiled(whole, [a], a.First(), s, used, !used);
    TwoChunksSplit(a, s, used);
    TwoChunksApart(a, s, used);
    TwoChunksMaps(a, s, used);
  }

  lemma TwoChunksSplit(a: Area, s: int, used: bool)
    requires s > 0
    ensures TwoChunks(a, s, used) == Split(map[a.First() := Chunk(a.size, true, a)], a.First(), s, used, !used)
  {
  }

  lemma TwoChunksApart(a: Area, s: int, used: bool)
    requires 0 < s < a.size
    ensures Coalesced(TwoChunks(a, s, used))
  {
  }

  lemma TwoChunksMaps(a: Area, s: int, used: bool)
    requires 0 < s < a.size
    ensures Live(TwoChunks(a, s, used)) == if used then map[a.First() := s] else map[a.First() + s := a.size - s]
    ensures FreeMap(TwoChunks(a, s, used)) == if used then map[a.First() + s := a.size - s] else map[a.First() := s]
  {
  }

  lemma OneChunkTiled(a: Area)
    requires AreaOk(a)
    ensures Tiled(map[a.First() := Chunk(a.size, true, a)], [a])
  {
    SlotAt(32, a.base);
  }

  // ----- a resize that loses a word

  function Arena(): Area { Area(64, 768) }

  /** The block at `c` of size `s` in the arena is the only one: the rest is one free chunk. */
  lemma ArenaHeap(h: Heap, s: int, used: bool)
    requires Tiled(h, [Arena()]) && Coalesced(h) && s % 64 == 0 && MIN_ALLOC <= s && s + MIN_ALLOC <= 768
    requires Live(h) == if used then map[96 := s] else map[96 + s := 768 - s]
    ensures h == TwoChunks(Arena(), s, used)
    ensures FreeMap(h) == if used then map[96 + s := 768 - s] else map[96 := s]
  {
    TwoChunksTiled(Arena(), s, used);
    BlocksDetermineHeap(h, TwoChunks(Arena(), s, used), [Arena()]);
  }

  lemma SizesOfRequests()
    ensures RequestToSize(224) == 256 && RequestToSize(480) == 512 && RequestToSize(544) == 576
    ensures AlignUp(64) == 64 && AreaSizeOk(768)
  {
  }

  /** One free chunk of the area, the only one to choose. */
  lemma OnlyFit(f: Free, size: nat, c: int, s: int)
    requires f == map[c := s] && size <= s
    ensures !NothingFits(f, size) && forall d :: IsBestFit(f, size, d) ==> d == c
  {
    assert c in f;
  }

  lemma AfterFirst(h: Heap, ptr: int)
    requires Tiled(h, [Arena()]) && Coalesced(h) && Live(h).Keys == {96} && 256 <= Live(h)[96]
    requires FreeMap(h) == map[352 := 512]
    ensures Live(h) == map[96 := 256]
  {
    assert 352 in FreeMap(h) && 96 in Live(h);
    assert 96 in h && 352 in h && h[96].size == Live(h)[96];
    assert 96 + h[96].size <= 352;
  }

  lemma AfterSecond(h: Heap)
    requires Tiled(h, [Arena()]) && 352 in Live(h) && 512 <= Live(h)[352]
    ensures Live(h)[352] == 512
  {
    assert ChunkOk(h, [Arena()], 352);
    assert h[352].home == Arena();
  }

  /** A fixed pool of 768 bytes whose first 256 bytes are free and whose other 512 are one block. */
  method Prepare() returns (pool: AllocPool)
    ensures fresh(pool) && pool.Valid() && pool.moreSize == 0 && pool.areas == [Arena()]
    ensures pool.heap == TwoChunks(Arena(), 256, false)
  {
    hide RingOk, RequestToSize, IsBestFit, NothingFits, PoolOk, Tiled, Coalesced, Live, FreeMap, SamePayloads, MetaOnly,
      HeadersOnly;
    SizesOfRequests();
    pool := new AllocPool(768, 0, 64);
    PoolShape(pool);
    OneFreeChunk(pool.heap, Arena());
    OnlyFit(FreeMap(pool.heap), 256, 96, 768);
    TrulyBelow(FreeMap(pool.heap), 256);
    var first := pool.Alloc(224, 0);
    PoolShape(pool);
    AfterFirst(pool.heap, first.ptr);
    OnlyFit(FreeMap(pool.heap), 512, 352, 512);
    TrulyBelow(FreeMap(pool.heap), 512);
    var second := pool.Alloc(480, 0);
    PoolShape(pool);
    AfterSecond(pool.heap);
    pool.Free(first.ptr);
    PoolShape(pool);
    ArenaHeap(pool.heap, 256, false);
  }

  lemma PoolShape(pool: AllocPool)
    requires pool.Valid()
    ensures Tiled(pool.heap, pool.areas) && Coalesced(pool.heap)
  {
  }

  /** Resizing the block to 576 bytes moves it down by 256, over the header of a remainder at 672. */
  lemma MovesDown()
    ensures var h := TwoChunks(Arena(), 256, false);
      && !RoomInPlace(h, 352, 576) && !NoRoomNear(h, 352, 576) && Clobbers(h, 352, 96, 576)
      && forall p :: RoomFrom(h, p, 352, 576) ==> p == 96
  {
    var h := TwoChunks(Arena(), 256, false);
    assert Before(h, 96, 352) && RunEnd(h, 352) == 864;
    assert RoomFrom(h, 96, 352, 576);
  }

  lemma AfterMove(h: Heap)
    requires Tiled(h, [Arena()]) && Coalesced(h) && Live(h).Keys == {96} && 576 <= Live(h)[96] && 672 in FreeMap(h)
    ensures Live(h) == map[96 := 576] && FreeMap(h) == map[672 := 192]
  {
    assert 96 in Live(h) && 96 in h && 672 in h && h[96].size == Live(h)[96];
    assert 96 + h[96].size <= 672;
    assert Live(h) == map[96 := 576];
    hide Live, FreeMap;
    ArenaHeap(h, 576, true);
  }

  /**
   Two allocations, a free and a resize: the word the client wrote at offset 312 of its
   payload reads as 192, the size of the remainder, whatever was written.
   */
  method LostWord(v: int) returns (written: int, read: int)
    ensures written == v && read == 192
  {
    hide RingOk, RequestToSize, PoolOk, Tiled, Coalesced, Live, FreeMap, SamePayloads, TwoChunks, Clobbers, NoRoomNear,
      RoomInPlace, RoomFrom, KeptBeside, KeepsPrefix;
    SizesOfRequests();
    var pool := Prepare();
    TwoChunksTiled(Arena(), 256, false);
    MovesDown();
    PoolRuns.ClientWrite(pool, 352, 384 + 312, v);
    written := Rd(pool.mem, 384 + 312);
    var r := pool.Realloc(384, 544, 0);
    PoolShape(pool);
    AfterMove(pool.heap);
    read := Rd(pool.mem, r.ptr + 312);
  }

  // ----- a request that is granted a chunk 4096 times too small

  /** The search hands out a chunk of 1 MB for a request of nearly 4 GB. */
  method FalseHit() returns (req: nat, fit: Fit, held: int)
    ensures req == 0xFFFF_FFE0 && !fit.NoFit? && held == 0x10_0000
  {
    hide RingOk, RequestToSize, PoolOk, Tiled, Coalesced, Live, FreeMap, IndexOk;
    req := 0xFFFF_FFE0;
    FitTestFailure();
    var pool := new AllocPool(0x10_0000, 0, 64);
    PoolShape(pool);
    OneFreeChunk(pool.heap, Area(64, 0x10_0000));
    FalseTest();
    PoolIndex(pool);
    fit := Search(pool.mem, pool.blocks, RequestToSize(req), pool.lists, pool.free);
    held := SizeOf(Tag(pool.mem, fit.chunk));
  }

  lemma PoolIndex(pool: AllocPool)
    requires pool.Valid()
    ensures IndexOk(pool.mem, pool.blocks, pool.lists, pool.free) && pool.free == FreeMap(pool.heap)
    ensures forall c :: c in pool.free ==> SizeOf(Tag(pool.mem, c)) == pool.free[c]
  {
    forall c | c in pool.free ensures SizeOf(Tag(pool.mem, c)) == pool.free[c] {
      assert SlotOk(c, pool.free[c]);
      Halves(pool.free[c]);
    }
  }

  lemma FalseTest()
    ensures !TestsTruly(map[96 := 0x10_0000], WORD32)
  {
    var f := map[96 := 0x10_0000];
    assert 96 in f && BinIndex(f[96]) == NUM_BINS - 1;
    assert (WORD32 - f[96] - 1) % WORD32 >= MAX_SIZE;
  }

  // ----- a new area split too finely

  /**
   A pool that grows by 1024 bytes and is asked for 928 splits its first area after
   960 bytes; asked for 992, after 1024.  No heap has the tags that are left.
   */
  lemma SplitTooFine()
    ensures RequestToSize(928) == 960 && AreaWanted(0, 1024, [], 960) == SplitArea(1024)
    ensures !Representable(SplitNewArea(map[], Area(64, 1024), 960), [Area(64, 1024)], Area(64, 1024))
    ensures RequestToSize(992) == 1024 && AreaWanted(0, 1024, [], 1024) == SplitArea(1024)
    ensures !Representable(SplitNewArea(map[], Area(64, 1024), 1024), [Area(64, 1024)], Area(64, 1024))
  {
    var a := Area(64, 1024);
    assert [a] + [] == [a];
    SplitNewAreaExact(map[], map[], [], a, 960);
    SplitNewAreaExact(map[], map[], [], a, 1024);
    hide Representable, SplitNewArea;
  }
}
