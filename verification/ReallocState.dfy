/**
 Resizing a block in place: tags, payloads and the copy.
 */
module ReallocState {
  import opened Words
  import opened Sizes
  import opened Links
  import opened Bins
  import opened FreeIndex
  import opened Chunks
  import opened Tags
  import opened PoolState

  /** memmove and memcpy of `n` bytes: every word is read before any is written. */
  function Move(m: Mem, dst: int, src: int, n: int): Mem
    decreases n
  {
    if n <= 0 then m else Move(m, dst, src, n - 1)[dst + n - 1 := Rd(m, src + n - 1)]
  }

  lemma {:induction false} MoveReads(m: Mem, dst: int, src: int, n: int, a: int)
    ensures Rd(Move(m, dst, src, n), a) == if dst <= a < dst + n then Rd(m, src + a - dst) else Rd(m, a)
    decreases n
  {
    if n > 0 {
      MoveReads(m, dst, src, n - 1, a);
    }
  }

  /** Header words and the pool object are the same in both memories. */
  ghost predicate HeadersKept(m: Mem, m': Mem, h: Heap, areas: seq<Area>) {
    forall a :: a < 0 || HeaderWord(h, areas, a) ==> Rd(m', a) == Rd(m, a)
  }

  lemma KeptField(m: Mem, m': Mem, h: Heap, areas: seq<Area>, x: int, o: int)
    requires HeadersKept(m, m', h, areas) && HeaderAt(h, areas, x) && 0 <= o < HEADER
    ensures Rd(m', x + o) == Rd(m, x + o)
  {
    assert HeaderWord(h, areas, x + o);
  }

  lemma KeptTags(m: Mem, m': Mem, h: Heap, areas: seq<Area>)
    requires Tiled(h, areas) && Tagged(m, h, areas) && HeadersKept(m, m', h, areas)
    ensures Tagged(m', h, areas)
  {
    forall c | c in h ensures ChunkTagged(m', h, c) {
      assert ChunkTagged(m, h, c) && ChunkOk(h, areas, c);
      KeptField(m, m', h, areas, c, 24);
      KeptField(m, m', h, areas, c + h[c].size, 16);
    }
    forall a | a in areas ensures Marked(m', a) {
      assert Marked(m, a);
      KeptField(m, m', h, areas, a.First(), 16);
      KeptField(m, m', h, areas, a.End(), 24);
    }
  }

  lemma KeptIndex(m: Mem, m': Mem, blocks: seq<nat>, lists: Lists, h: Heap, areas: seq<Area>, f: Free)
    requires IndexOk(m, blocks, lists, f) && HeadersKept(m, m', h, areas) && f.Keys <= h.Keys
    ensures IndexOk(m', blocks, lists, f)
  {
    forall x | x in f ensures Tag(m', x) == f[x] && Rd(m', x) == Rd(m, x) && Rd(m', x + 8) == Rd(m, x + 8) {
      KeptField(m, m', h, areas, x, 0);
      KeptField(m, m', h, areas, x, 8);
      KeptField(m, m', h, areas, x, 24);
    }
    forall i | 0 <= i < NUM_BINS ensures Ring(m', BinAddr(i), lists[i]) {
      assert Ring(m, BinAddr(i), lists[i]);
      forall x | x == BinAddr(i) || x in lists[i] ensures Next(m', x) == Next(m, x) && Prev(m', x) == Prev(m, x) {
        if x in lists[i] {
          assert x in f;
        }
      }
      RingFrame(m, m', BinAddr(i), lists[i]);
    }
  }

  /** Writing payloads keeps the pool in order. */
  lemma PayloadWrite(m: Mem, m': Mem, blocks: seq<nat>, areas: seq<Area>, h: Heap, f: Free, lists: Lists)
    requires PoolOk(m, blocks, areas, h, f, lists) && HeadersKept(m, m', h, areas)
    ensures PoolOk(m', blocks, areas, h, f, lists)
  {
    hide Tiled, Tagged, Coalesced, IndexOk, HeadersKept;
    FreeKeysOk(h, areas);
    KeptTags(m, m', h, areas);
    KeptIndex(m, m', blocks, lists, h, areas, f);
  }

  /** Making the first chunk of a new area an empty list touches nothing of the pool. */
  lemma EmptyFirst(m: Mem, blocks: seq<nat>, areas: seq<Area>, h: Heap, f: Free, lists: Lists, a: Area)
    requires PoolOk(m, blocks, areas, h, f, lists) && CanAdd(areas, a)
    ensures PoolOk(BeEmpty(m, a.First()), blocks, areas, h, f, lists)
    ensures SamePayloads(m, BeEmpty(m, a.First()), Live(h))
  {
    var m' := BeEmpty(m, a.First());
    forall x | HeaderAt(h, areas, x) ensures x + HEADER <= a.base || a.End() + HEADER <= x {
      if x in h {
        AddAreaOutside(h, areas, a, x);
        assert ChunkOk(h, areas, x);
      }
    }
    assert HeadersKept(m, m', h, areas);
    PayloadWrite(m, m', blocks, areas, h, f, lists);
    forall c, x | c in Live(h) && c + HEADER <= x < c + Live(h)[c] ensures Rd(m', x) == Rd(m, x) {
      AddAreaOutside(h, areas, a, c);
    }
    hide PoolOk, IndexOk, Tagged;
  }

  /** A copy into the payload of block `d` touches no header and no other payload. */
  lemma MoveKeeps(m: Mem, h: Heap, areas: seq<Area>, d: int, src: int, n: int)
    requires Tiled(h, areas) && d in Live(h) && n <= h[d].size - HEADER
    ensures HeadersKept(m, Move(m, d + HEADER, src, n), h, areas)
    ensures SamePayloads(m, Move(m, d + HEADER, src, n), Live(h) - {d})
  {
    var m' := Move(m, d + HEADER, src, n);
    assert ChunkOk(h, areas, d);
    forall a | a < 0 || HeaderWord(h, areas, a) ensures Rd(m', a) == Rd(m, a) {
      MoveReads(m, d + HEADER, src, n, a);
      if d + HEADER <= a < d + h[d].size {
        PayloadOutside(h, areas, d, a);
      }
    }
    forall c, a | c in Live(h) - {d} && c + HEADER <= a < c + (Live(h) - {d})[c] ensures Rd(m', a) == Rd(m, a) {
      MoveReads(m, d + HEADER, src, n, a);
      assert ChunkOk(h, areas, c);
    }
  }

  /** Only headers of `h` and the 32 bytes at `x` may differ. */
  ghost predicate HeadersOr(m: Mem, m': Mem, h: Heap, areas: seq<Area>, x: int) {
    forall a :: a >= 0 && !HeaderWord(h, areas, a) && !(x <= a < x + HEADER) ==> Rd(m', a) == Rd(m, a)
  }

  function SplitTagWrites(m: Mem, s: int, e: int, size: int): Mem {
    SetTags(SetTags(m, s + size, e - s - size, true), s, size, true)
  }

  function FuseSplit(h: Heap, s: int, e: int, size: int): Heap
    requires s in h
  {
    Split(Fuse(h, s, e, true), s, size, true, true)
  }

  lemma SplitWritesFrame(m: Mem, s: int, e: int, size: int)
    requires s > 0 && s % 64 == 32 && e % 64 == 32 && size % 64 == 0 && 0 < size < e - s
    ensures var m2 := SplitTagWrites(m, s, e, size);
      && TagsSameBut(SetTags(m, s, e - s, true), m2, {s, s + size}, {s + size, e})
      && Tag(m2, s) == PrevTag(m2, s + size) == TagWord(size, true)
      && Tag(m2, s + size) == PrevTag(m2, e) == TagWord(e - s - size, true)
  {
    hide SetTags, TagWord;
    var m1 := SetTags(m, s + size, e - s - size, true);
    SlotAt(s, size);
    Gap(s, e);
    Gap(s + size, e);
    SetTagsFrame(m, s, e - s, true);
    SetTagsFrame(m, s + size, e - s - size, true);
    SetTagsFrame(m1, s, size, true);
  }

  lemma SplitWritesHeaders(m: Mem, h: Heap, areas: seq<Area>, s: int, e: int, size: int)
    requires Tiled(h, areas) && s in h && s < e && Boundary(h, h[s].home, e)
    ensures HeadersOr(m, SplitTagWrites(m, s, e, size), h, areas, s + size)
  {
    assert ChunkOk(h, areas, s);
    assert HeaderAt(h, areas, s) && HeaderAt(h, areas, e);
  }

  lemma FuseSplitMaps(h: Heap, s: int, e: int, size: int)
    requires s in h && s < e && s + size !in Fuse(h, s, e, true) && size > 0
    ensures FreeMap(FuseSplit(h, s, e, size)) == FreeOutside(h, s, e)
    ensures Live(FuseSplit(h, s, e, size)) == LiveOutside(h, s, e)[s := size][s + size := e - s - size]
  {
    var hF := Fuse(h, s, e, true);
    CloseMaps(h, s, e);
    SplitMaps(hF, s, size, true);
    assert s !in FreeMap(hF);
    assert Live(hF)[s := size] == LiveOutside(h, s, e)[s := size];
  }

  lemma SplitUsedFacts(hF: Heap, areas: seq<Area>, s: int, size: int)
    requires Tiled(hF, areas) && Coalesced(hF) && CanSplit(hF, s, size) && hF[s].used
    ensures var h2 := Split(hF, s, size, true, true); Tiled(h2, areas) && Coalesced(h2) && s + size !in hF
  {
    SplitTiled(hF, areas, s, size, true, true);
    forall d | d in hF && d != s ensures d + hF[d].size != s + size {
      SplitMiss(hF, areas, s, size, d);
    }
    SplitCoalesced(hF, s, size, true);
  }

  /** Lines 508-512: a run around a block becomes the resized block and a block in use after it. */
  lemma SplitUsedStep(m: Mem, blocks: seq<nat>, areas: seq<Area>, h: Heap, f: Free, lists: Lists, s: int, e: int,
      size: int)
    requires RegionOk(m, blocks, areas, h, f, lists, s, e)
    requires size % 64 == 0 && MIN_ALLOC <= size && size + MIN_ALLOC <= e - s
    ensures PoolOk(SplitTagWrites(m, s, e, size), blocks, areas, FuseSplit(h, s, e, size), f, lists)
    ensures Live(FuseSplit(h, s, e, size)) == LiveOutside(h, s, e)[s := size][s + size := e - s - size]
    ensures s + size !in Fuse(h, s, e, true)
    ensures s in FuseSplit(h, s, e, size) && s + size in FuseSplit(h, s, e, size)
    ensures FuseSplit(h, s, e, size)[s + size] == Chunk(e - s - size, true, h[s].home)
    ensures FuseSplit(h, s, e, size)[s] == Chunk(size, true, h[s].home)
    ensures FuseSplit(h, s, e, size).Keys <= h.Keys + {s + size}
  {
    hide Tiled, Coalesced, Tagged, IndexOk, Boundary, FreeOutside, FreeMap, Live, LiveOutside, HeadersOnly, SetTags;
    var hF := Fuse(h, s, e, true);
    CloseUsed(m, blocks, areas, h, f, lists, s, e);
    FuseNumbers(h, areas, s, e);
    SplitUsedFacts(hF, areas, s, size);
    FuseSplitMaps(h, s, e, size);
    SplitWritesFrame(m, s, e, size);
    TaggedSplit(SetTags(m, s, e - s, true), SplitTagWrites(m, s, e, size), hF, areas, s, size, true, true);
    SplitIndex(m, blocks, lists, h, areas, f, s, e, size);
  }

  lemma InsideRun(h: Heap, s: int, e: int, x: int)
    requires s <= x < e
    ensures x !in FreeOutside(h, s, e)
  {
  }

  lemma SplitIndex(m: Mem, blocks: seq<nat>, lists: Lists, h: Heap, areas: seq<Area>, f: Free, s: int, e: int,
      size: int)
    requires Tiled(h, areas) && s in h && s < e && Boundary(h, h[s].home, e) && f == FreeOutside(h, s, e)
    requires IndexOk(m, blocks, lists, f) && size % 64 == 0 && 0 < size < e - s
    ensures IndexOk(SplitTagWrites(m, s, e, size), blocks, lists, f)
  {
    hide Tiled, IndexOk, Boundary, SetTags, FreeOutside;
    FuseNumbers(h, areas, s, e);
    InsideRun(h, s, e, s + size);
    SlotAt(s, size);
    Gap(s + size, e);
    SetTagsIndex(m, blocks, lists, f, s + size, e - s - size, true);
    SetTagsIndex(SetTags(m, s + size, e - s - size, true), blocks, lists, f, s, size, true);
  }

  // ----- growing a block into its neighbours

  /** Free chunk `p` lies right before block `c`. */
  ghost predicate Before(h: Heap, p: int, c: int) {
    p in h && c in h && !h[p].used && p + h[p].size == c
  }

  /** The end of block `c` together with a free successor. */
  ghost function RunEnd(h: Heap, c: int): int
    requires c in h
  {
    var n := c + h[c].size;
    if n in h && !h[n].used then n + h[n].size else n
  }

  /** Block `c` can be resized to `size` bytes where it is, taking in a free successor if need be. */
  ghost predicate RoomInPlace(h: Heap, c: int, size: int)
    requires c in h
  {
    RunEnd(h, c) - c >= size
  }

  /** Block `c` can be resized by moving down into its free predecessor `p`. */
  ghost predicate RoomFrom(h: Heap, p: int, c: int, size: int) {
    Before(h, p, c) && RunEnd(h, c) - p >= size
  }

  /** Neither the block nor its neighbours have room. */
  ghost predicate NoRoomNear(h: Heap, c: int, size: int)
    requires c in h
  {
    !RoomInPlace(h, c, size) && forall p :: !RoomFrom(h, p, c, size)
  }

  /**
   Moving block `c` down to `p` and splitting off the rest puts the header of
   the remainder inside the old payload, before that payload is copied.
   */
  ghost predicate Clobbers(h: Heap, c: int, p: int, size: int) {
    Before(h, p, c) && p + size + MIN_ALLOC <= RunEnd(h, c) && c < p + size < c + h[c].size
  }

  /** Tag of the chunk before `c`, reached through the previous-size tag of `c`. */
  lemma PrevBlock(m: Mem, blocks: seq<nat>, areas: seq<Area>, h: Heap, f: Free, lists: Lists, c: int)
    requires PoolOk(m, blocks, areas, h, f, lists) && c in h && h[c].used
    ensures var p := c - SizeOf(PrevTag(m, c));
      && (InUseBit(Tag(m, p)) <==> InUseBit(PrevTag(m, c)))
      && (!InUseBit(PrevTag(m, c)) ==> Before(h, p, c) && SizeOf(Tag(m, p)) == h[p].size == SizeOf(PrevTag(m, c)))
      && forall q :: Before(h, q, c) ==> !InUseBit(PrevTag(m, c)) && q == p
  {
    hide IndexOk, Coalesced, Tiled, Tagged, FreeMap, SizeOf, InUseBit, Word;
    ReadPrev(m, h, areas, c);
    forall q | Before(h, q, c) ensures !InUseBit(PrevTag(m, c)) && q == c - SizeOf(PrevTag(m, c)) {
      TagsOf(m, h, areas, q);
    }
    TagsOf(m, h, areas, c);
    MarkerWord();
    if c != h[c].home.First() {
      var p := Predecessor(h, areas, c);
      TagsOf(m, h, areas, p);
    }
  }

  lemma NextEnd(m: Mem, blocks: seq<nat>, areas: seq<Area>, h: Heap, f: Free, lists: Lists, c: int)
    requires PoolOk(m, blocks, areas, h, f, lists) && c in h && h[c].used
    ensures var n := c + h[c].size;
      RunEnd(h, c) == if InUseBit(Tag(m, n)) then n else n + SizeOf(Tag(m, n))
    ensures var n := c + h[c].size; !InUseBit(Tag(m, n)) ==> SizeOf(Tag(m, n)) > 0
    ensures h[c].size > 0
  {
    hide IndexOk, Coalesced, Tiled, Tagged, SizeOf, InUseBit, FreeOutside, LiveOutside, Boundary, FreeMap;
    HomeInAreas(h, areas, c);
    WholeChunk(h, areas, c);
    ReadNext(m, h, areas, h[c].home, c + h[c].size);
    if !InUseBit(Tag(m, c + h[c].size)) {
      HomeInAreas(h, areas, c + h[c].size);
    }
  }

  /** A chunk in use that does not end its area is followed by a free chunk unless a block follows. */
  lemma FreeAfter(m: Mem, blocks: seq<nat>, areas: seq<Area>, h: Heap, f: Free, lists: Lists, s: int)
    requires PoolOk(m, blocks, areas, h, f, lists) && s in Live(h)
    requires s + h[s].size != h[s].home.End() && s + h[s].size !in Live(h)
    ensures s + h[s].size in f && Tag(m, s + h[s].size) == f[s + h[s].size]
  {
    assert ChunkOk(h, areas, s);
    assert ChunkTagged(m, h, s + h[s].size);
  }

  /** An area holds the same addresses in every state of the pool it belongs to. */
  lemma SameHome(h: Heap, h': Heap, areas: seq<Area>, areas': seq<Area>, s: int)
    requires Tiled(h, areas) && Tiled(h', areas') && s in h && s in h'
    requires forall a :: a in areas' ==> a in areas
    ensures h[s].home == h'[s].home
  {
    HomeInAreas(h, areas, s);
    HomeInAreas(h', areas', s);
    assert ChunkOk(h, areas, s) && ChunkOk(h', areas', s);
    HomeOf(h, areas, s, h'[s].home);
  }

  lemma NotLast(h: Heap, s: int, r: int)
    requires s in h && r in h && s != r && h[s].used && h[s].home == h[r].home
    ensures forall a :: !LastIn(h, r, a)
  {
  }

  lemma RegionFacts(m: Mem, blocks: seq<nat>, areas: seq<Area>, h: Heap, f: Free, lists: Lists, s: int, e: int)
    requires RegionOk(m, blocks, areas, h, f, lists, s, e)
    ensures Tiled(h, areas) && s in h && 0 < s < e && Boundary(h, h[s].home, e)
  {
    HomeInAreas(h, areas, s);
  }

  lemma FreeIsMap(m: Mem, blocks: seq<nat>, areas: seq<Area>, h: Heap, f: Free, lists: Lists)
    requires PoolOk(m, blocks, areas, h, f, lists)
    ensures f == FreeMap(h)
  {
  }

  lemma SplitFrame(m: Mem, blocks: seq<nat>, areas: seq<Area>, h: Heap, f: Free, lists: Lists, s: int, e: int,
      size: int)
    requires RegionOk(m, blocks, areas, h, f, lists, s, e)
    ensures HeadersOr(m, SplitTagWrites(m, s, e, size), h, areas, s + size)
  {
    SplitWritesHeaders(m, h, areas, s, e, size);
  }

  lemma RemainderLive(h2: Heap, s: int, r: int)
    requires s in h2 && r in h2 && h2[s].used && h2[r].used
    ensures r in Live(h2) && s in Live(h2)
  {
  }

  lemma DropRemainder(h: Heap, s: int, e: int, size: int, rest: int)
    requires 0 < size && s + size < e
    ensures LiveOutside(h, s, e)[s := size][s + size := rest] - {s + size} == LiveOutside(h, s, e)[s := size]
    ensures s + size !in LiveOutside(h, s, e)[s := size]
  {
  }

  lemma LiveSize(h: Heap, s: int)
    requires s in Live(h)
    ensures s in h && h[s].used && h[s].size == Live(h)[s]
  {
  }

  lemma AfterSettle(m: Mem, m2: Mem, m3: Mem, h: Heap, h2: Heap, areas: seq<Area>, x: int)
    requires HeadersOr(m, m2, h, areas, x) && HeadersOnly(m2, m3, h2, areas) && h2.Keys <= h.Keys + {x}
    ensures HeadersOr(m, m3, h, areas, x)
  {
    forall a | HeaderWord(h2, areas, a) ensures HeaderWord(h, areas, a) || x <= a < x + HEADER {
      var y :| HeaderAt(h2, areas, y) && y <= a < y + HEADER;
      assert y == x || HeaderAt(h, areas, y);
    }
  }

  /** After the remainder is freed, a free chunk starts where the resized block ends. */
  lemma RemainderFree(m: Mem, blocks: seq<nat>, areas: seq<Area>, areas': seq<Area>, h: Heap, h': Heap, f: Free,
                  lists: Lists, s: int, e: int, size: int)
    requires Tiled(h, areas) && s in h && Boundary(h, h[s].home, e) && s < e && s + size < e
    requires PoolOk(m, blocks, areas', h', f, lists) && s in Live(h') && h'[s].size == size && s + size !in Live(h')
    requires forall a :: a in areas' ==> a in areas
    ensures s + size in f && Tag(m, s + size) == f[s + size]
  {
    SameHome(h, h', areas, areas', s);
    BoundaryAfter(h, areas, s, e);
    FreeAfter(m, blocks, areas', h', f, lists, s);
  }

  // ----- contents

  /** The `n` words from `ptr` on read at `ptr'` as they did before. */
  ghost predicate PrefixKept(m: Mem, m': Mem, ptr: int, ptr': int, n: int) {
    forall a :: ptr <= a < ptr + n ==> Rd(m', ptr' + (a - ptr)) == Rd(m, a)
  }

  /** The same, except for the words that lay in a header at `x`. */
  ghost predicate KeptBeside(m: Mem, m': Mem, ptr: int, ptr': int, n: int, x: int) {
    forall a :: ptr <= a < ptr + n && !(x <= a < x + HEADER) ==> Rd(m', ptr' + (a - ptr)) == Rd(m, a)
  }

  /** The frame of settling a run: a header in `[s, s + newsize)` only if something was split off. */
  ghost predicate SettleFrame(m: Mem, m': Mem, h: Heap, areas: seq<Area>, s: int, newsize: int, size: int) {
    if newsize - size >= MIN_ALLOC then HeadersOr(m, m', h, areas, s + size) else HeadersOnly(m, m', h, areas)
  }

  lemma SettleFrameIntro(m: Mem, m': Mem, h: Heap, areas: seq<Area>, s: int, newsize: int, size: int)
    requires newsize - size >= MIN_ALLOC ==> HeadersOr(m, m', h, areas, s + size)
    requires newsize - size < MIN_ALLOC ==> HeadersOnly(m, m', h, areas)
    ensures SettleFrame(m, m', h, areas, s, newsize, size)
  {
  }

  lemma NotBefore(h: Heap, c: int, size: int)
    requires c in h && h[c].size > 0
    ensures !Clobbers(h, c, c, size)
  {
  }

  lemma SettleFrameTrans(m: Mem, m1: Mem, m2: Mem, h: Heap, areas: seq<Area>, s: int, newsize: int, size: int)
    requires HeadersOnly(m, m1, h, areas) && SettleFrame(m1, m2, h, areas, s, newsize, size)
    ensures SettleFrame(m, m2, h, areas, s, newsize, size)
  {
  }

  lemma ContentInPlace(m: Mem, m': Mem, h: Heap, areas: seq<Area>, c: int, newsize: int, size: int, n: int)
    requires Tiled(h, areas) && c in h && SettleFrame(m, m', h, areas, c, newsize, size)
    requires n <= h[c].size && (newsize - size >= MIN_ALLOC ==> n <= size)
    ensures PrefixKept(m, m', c + HEADER, c + HEADER, n - HEADER)
  {
    forall a | c + HEADER <= a < c + n ensures Rd(m', a) == Rd(m, a) {
      PayloadOutside(h, areas, c, a);
    }
  }

  /** Moving down keeps the payload unless the remainder's header lies inside it. */
  lemma ContentMoved(m: Mem, m': Mem, h: Heap, areas: seq<Area>, c: int, s: int, newsize: int, size: int)
    requires Tiled(h, areas) && c in h && SettleFrame(m, m', h, areas, s, newsize, size)
    requires newsize - size < MIN_ALLOC || s + size <= c || s + size >= c + h[c].size
    ensures
      var n := h[c].size - HEADER;
      PrefixKept(m, Move(m', s + HEADER, c + HEADER, n), c + HEADER, s + HEADER, n)
  {
    var n := h[c].size - HEADER;
    forall a | c + HEADER <= a < c + HEADER + n
      ensures Rd(Move(m', s + HEADER, c + HEADER, n), s + HEADER + (a - (c + HEADER))) == Rd(m, a)
    {
      PayloadOutside(h, areas, c, a);
      MoveReads(m', s + HEADER, c + HEADER, n, s + HEADER + (a - (c + HEADER)));
    }
  }

  /** In any case the words beside the header of the remainder are kept. */
  lemma ContentBeside(m: Mem, m': Mem, h: Heap, areas: seq<Area>, c: int, s: int, newsize: int, size: int)
    requires Tiled(h, areas) && c in h && SettleFrame(m, m', h, areas, s, newsize, size)
    ensures
      var n := h[c].size - HEADER;
      KeptBeside(m, Move(m', s + HEADER, c + HEADER, n), c + HEADER, s + HEADER, n, s + size)
  {
    var n := h[c].size - HEADER;
    forall a | c + HEADER <= a < c + HEADER + n && !(s + size <= a < s + size + HEADER)
      ensures Rd(Move(m', s + HEADER, c + HEADER, n), s + HEADER + (a - (c + HEADER))) == Rd(m, a)
    {
      PayloadOutside(h, areas, c, a);
      MoveReads(m', s + HEADER, c + HEADER, n, s + HEADER + (a - (c + HEADER)));
    }
  }

  /** If it does lie inside, its size tag is copied in place of the word that was there. */
  lemma ContentClobbered(m': Mem, h: Heap, areas: seq<Area>, c: int, s: int, size: int)
    requires Tiled(h, areas) && Clobbers(h, c, s, size) && size % 64 == 0
    ensures Rd(Move(m', s + HEADER, c + HEADER, h[c].size - HEADER), s + HEADER + (s + size + 24 - (c + HEADER)))
         == Tag(m', s + size)
    ensures 0 <= s + size + 24 - (c + HEADER) < h[c].size - HEADER
  {
    hide Tiled;
    ChunkSlots(h, areas, c);
    ChunkSlots(h, areas, s);
    SlotAt(s, size);
    OneSlot(c, s + size);
    OneSlot(s + size, c + h[c].size);
    MoveReads(m', s + HEADER, c + HEADER, h[c].size - HEADER, s + HEADER + (s + size + 24 - (c + HEADER)));
  }

  lemma OthersKept(m: Mem, m': Mem, h: Heap, areas: seq<Area>, c: int, s: int, newsize: int, size: int)
    requires Tiled(h, areas) && s in h && OnlyUsed(h, s, s + newsize, c) && size > 0
    requires SettleFrame(m, m', h, areas, s, newsize, size)
    ensures SamePayloads(m, m', Live(h) - {c})
  {
    var live := Live(h) - {c};
    forall d, a | d in live && d + HEADER <= a < d + live[d] ensures Rd(m', a) == Rd(m, a) {
      PayloadOutside(h, areas, d, a);
    }
  }

  /** Copying into the settled block. */
  lemma CopyStep(m: Mem, m': Mem, blocks: seq<nat>, areas: seq<Area>, h: Heap, f: Free, lists: Lists,
                 s: int, src: int, n: int, live: map<int, int>)
    requires PoolOk(m', blocks, areas, h, f, lists) && s in Live(h) && n <= Live(h)[s] - HEADER
    requires SamePayloads(m, m', live) && forall d :: d in live ==> d in Live(h) - {s} && live[d] == Live(h)[d]
    ensures PoolOk(Move(m', s + HEADER, src, n), blocks, areas, h, f, lists)
    ensures SamePayloads(m, Move(m', s + HEADER, src, n), live)
    ensures SamePayloads(m', Move(m', s + HEADER, src, n), Live(h) - {s})
  {
    hide Tiled, Coalesced, Tagged, IndexOk, HeadersKept, SamePayloads;
    LiveSize(h, s);
    MoveKeeps(m', h, areas, s, src, n);
    PayloadWrite(m', Move(m', s + HEADER, src, n), blocks, areas, h, f, lists);
    SamePayloadsSub(m', Move(m', s + HEADER, src, n), Live(h) - {s}, live);
    SamePayloadsTrans(m, m', Move(m', s + HEADER, src, n), live);
  }

  lemma NotOther(h: Heap, c: int, s: int)
    requires s == c || Before(h, s, c)
    ensures s !in Live(h) - {c}
  {
  }

  lemma PoolFacts(m: Mem, blocks: seq<nat>, areas: seq<Area>, h: Heap, f: Free, lists: Lists, c: int)
    requires PoolOk(m, blocks, areas, h, f, lists) && c in Live(h)
    ensures Tiled(h, areas) && c in h && h[c].used && Live(h)[c] == h[c].size == SizeOf(Tag(m, c))
    ensures c > 0 && h[c].size % 64 == 0 && h[c].size >= MIN_ALLOC && f == FreeMap(h)
  {
    hide IndexOk, Coalesced, Tiled;
    HomeInAreas(h, areas, c);
    assert ChunkTagged(m, h, c);
  }

  /** A block settled at its own address keeps its payload. */
  lemma InPlaceStep(m: Mem, m': Mem, h: Heap, areas: seq<Area>, c: int, newsize: int, size: int)
    requires Tiled(h, areas) && c in h && OnlyUsed(h, c, c + newsize, c) && size > 0
    requires SettleFrame(m, m', h, areas, c, newsize, size)
    ensures SamePayloads(m, m', Live(h) - {c})
    ensures var n := if newsize - size >= MIN_ALLOC then size else newsize;
      PrefixKept(m, m', c + HEADER, c + HEADER, (if h[c].size <= n then h[c].size else n) - HEADER)
  {
    OthersKept(m, m', h, areas, c, c, newsize, size);
    var n := if newsize - size >= MIN_ALLOC then size else newsize;
    ContentInPlace(m, m', h, areas, c, newsize, size, if h[c].size <= n then h[c].size else n);
  }

  /** A block settled at `s` and copied there. */
  lemma MovedStep(m: Mem, m': Mem, blocks: seq<nat>, areas: seq<Area>, areas': seq<Area>, h: Heap, h': Heap, f: Free,
                  lists: Lists, c: int, s: int, newsize: int, size: int)
    requires Tiled(h, areas) && c in h && h[c].used && OnlyUsed(h, s, s + newsize, c)
    requires size % 64 == 0 && h[c].size < size
    requires Before(h, s, c) && s + newsize == RunEnd(h, c) && 0 < size <= newsize
    requires SettleFrame(m, m', h, areas, s, newsize, size)
    requires PoolOk(m', blocks, areas', h', f, lists)
    requires Live(h') == (Live(h) - {c})[s := if newsize - size >= MIN_ALLOC then size else newsize]
    ensures var m2 := Move(m', s + HEADER, c + HEADER, h[c].size - HEADER);
      && PoolOk(m2, blocks, areas', h', f, lists) && SamePayloads(m, m2, Live(h) - {c})
      && (!Clobbers(h, c, s, size) ==> PrefixKept(m, m2, c + HEADER, s + HEADER, h[c].size - HEADER))
      && (Clobbers(h, c, s, size) ==> Rd(m2, s + HEADER + (s + size + 24 - (c + HEADER))) == Tag(m', s + size))
      && KeptBeside(m, m2, c + HEADER, s + HEADER, h[c].size - HEADER, s + size)
    ensures Clobbers(h, c, s, size) ==> newsize - size >= MIN_ALLOC
  {
    hide PoolOk, Tiled, SamePayloads, PrefixKept, KeptBeside, SettleFrame, Live, Tag, RunEnd;
    NotOther(h, c, s);
    ContentBeside(m, m', h, areas, c, s, newsize, size);
    OthersKept(m, m', h, areas, c, s, newsize, size);
    CopyStep(m, m', blocks, areas', h', f, lists, s, c + HEADER, h[c].size - HEADER, Live(h) - {c});
    if Clobbers(h, c, s, size) {
      ContentClobbered(m', h, areas, c, s, size);
    } else {
      ContentMoved(m, m', h, areas, c, s, newsize, size);
    }
  }
}
