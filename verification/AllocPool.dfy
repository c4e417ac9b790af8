/**
 The real-time pool allocator of common/SC_AllocPool.cpp.

 The pool works on flat memory: chunk headers, bin links and payload are words
 of `mem`.  `heap`, `free` and `lists` are the chunks, the free map and the bin
 contents that memory represents.
 */
module Pool {
  import opened Words
  import opened Sizes
  import opened Links
  import opened Bins
  import opened FreeIndex
  import opened Chunks
  import opened Tags
  import opened PoolState
  import opened BestFit
  import opened ReallocState
  import opened Conservation
  import opened AreaRing
  import Queries

  /** The first link of bin `index` that is not larger than `size`; the bin itself if none. */
  method FindLink(mem: Mem, size: int, index: nat, ghost lists: Lists, ghost f: Free) returns (link: int, ghost k: nat)
    requires ListsOk(lists, f) && Rings(mem, lists) && Sized(mem, f) && index < NUM_BINS
    ensures k <= |lists[index]| && link == Loop(BinAddr(index), lists[index])[k + 1]
    ensures forall j :: 0 <= j < k ==> f[lists[index][j]] > size
    ensures k < |lists[index]| ==> f[lists[index][k]] <= size
  {
    hide BinIndex, Complete, Descending, FreeOk;
    var bin := BinAddr(index);
    ghost var l := lists[index];
    k := 0;
    assert Ring(mem, bin, l) && BinAddr(index) !in l;
    link := Next(mem, bin);
    assert Next(mem, Loop(bin, l)[0]) == Loop(bin, l)[1];
    while link != bin && size < SizeOf(Tag(mem, link))
      invariant 0 <= k <= |l| && link == Loop(bin, l)[k + 1]
      invariant forall j :: 0 <= j < k ==> f[l[j]] > size
      decreases |l| - k
    {
      assert link == l[k];
      Listed(lists, f, index, link);
      k := k + 1;
      link := Next(mem, link);
      assert Next(mem, Loop(bin, l)[k]) == Loop(bin, l)[k + 1];
    }
    if k < |l| {
      assert link == l[k];
      Listed(lists, f, index, link);
    }
  }

  ghost predicate AreaSizeOk(size: nat) {
    size == 0 || (size % ALIGN == 0 && MIN_ALLOC <= size < MAX_SIZE)
  }

  /** A payload pointer, a null pointer, or an exception. */
  datatype Outcome = Block(ptr: int) | Null | Threw

  /** `ptr` is the payload of a new block, tight for `size`, and all older blocks stay. */
  ghost predicate Allocated(h: Heap, h': Heap, size: int, ptr: int) {
    var c := ptr - HEADER;
    && ptr % ALIGN == 0 && c !in Live(h) && c in Live(h')
    && size <= Live(h')[c] < size + MIN_ALLOC
    && Live(h') == Live(h)[c := Live(h')[c]]
  }

  /** The block was cut from the smallest chunk that fits; a remainder worth keeping went back. */
  ghost predicate TakenFrom(f: Free, f': Free, size: nat, c: int) {
    && IsBestFit(f, size, c)
    && f' == if f[c] >= size + MIN_ALLOC then (f - {c})[c + size := f[c] - size] else f - {c}
  }

  function Min(a: int, b: int): int {
    if a <= b then a else b
  }

  /** Block `c` became the block at `ptr`, tight for `size`; all other blocks stay. */
  ghost predicate Resized(h: Heap, h': Heap, c: int, size: int, ptr: int) {
    var s := ptr - HEADER;
    && c in Live(h) && s in Live(h') && s !in Live(h) - {c}
    && size <= Live(h')[s] < size + MIN_ALLOC
    && Live(h') == (Live(h) - {c})[s := Live(h')[s]]
  }

  /** The block at `ptr` is the chunk found, cut to `size` if the rest is worth keeping. */
  ghost predicate CutFrom(f: Free, h': Heap, size: nat, ptr: int) {
    var c := ptr - HEADER;
    c in f && c in Live(h') && Live(h')[c] == if f[c] >= size + MIN_ALLOC then size else f[c]
  }

  /** The block at `ptr` starts the new area in front of all others; the rest of that area is one free chunk. */
  ghost predicate InNewArea(initSize: nat, moreSize: nat, areas: seq<Area>, h: Heap, areas': seq<Area>, h': Heap,
                            size: nat, raw: nat, ptr: int) {
    var areaSize := if moreSize == 0 then initSize else if size > moreSize then size else moreSize;
    var a, c := Area(AlignUp(raw), areaSize), ptr - HEADER;
    && areas' == [a] + areas && c == a.First() && c !in h
    && (moreSize == 0 ==> areas == [] && size <= initSize)
    && Live(h') == Live(h)[c := size]
    && FreeMap(h') == if areaSize == size then FreeMap(h) else FreeMap(h)[c + size := areaSize - size]
  }

  /** The bytes block `c` is resized into when it ends up at `s`: itself, with its neighbours, or another chunk. */
  ghost function RunFor(h: Heap, c: int, size: int, s: int): int
    requires c in h
  {
    if h[c].size >= size then h[c].size
    else if !NoRoomNear(h, c, size) then RunEnd(h, c) - s
    else if s in FreeMap(h) && FreeMap(h)[s] >= size then FreeMap(h)[s]
    else size
  }

  /** The block at `ptr` has all of the bytes found, or exactly `size` of them if the rest can be a chunk. */
  ghost predicate CutToSize(h: Heap, h': Heap, c: int, size: int, ptr: int) {
    var s := ptr - HEADER;
    && c in h && s in Live(h')
    && var run := RunFor(h, c, size, s); Live(h')[s] == if run >= size + MIN_ALLOC then size else run
  }

  /** The words both the old and the new block have room for were kept. */
  ghost predicate KeepsPrefix(m: Mem, m': Mem, h: Heap, h': Heap, c: int, ptr: int) {
    && c in h && ptr - HEADER in h'
    && PrefixKept(m, m', c + HEADER, ptr, Min(h[c].size, h'[ptr - HEADER].size) - HEADER)
  }

  /**
   The payload was kept, but for the words where the header of the free chunk that
   now follows the block was written: one of them reads as the size tag of that chunk.
   */
  ghost predicate LosesWord(m: Mem, m': Mem, h: Heap, h': Heap, c: int, size: int, ptr: int) {
    var rest := ptr - HEADER + size;
    && rest in FreeMap(h') && Rd(m', ptr + (rest + 24 - (c + HEADER))) == FreeMap(h')[rest]
    && c in h && KeptBeside(m, m', c + HEADER, ptr, h[c].size - HEADER, rest)
  }

  /** What a resized block owes its owner. */
  ghost predicate Reallocated(m: Mem, m': Mem, h: Heap, h': Heap, c: int, size: int, ptr: int) {
    && Resized(h, h', c, size, ptr)
    && SamePayloads(m, m', Live(h) - {c})
    && (!Clobbers(h, c, ptr - HEADER, size) ==> KeepsPrefix(m, m', h, h', c, ptr))
    && (Clobbers(h, c, ptr - HEADER, size) ==> LosesWord(m, m', h, h', c, size, ptr))
  }

  /**
   A resized block keeps its payload exactly when the remainder's header misses it,
   unless the lost word happened to read as the size of the remainder.
   */
  lemma KeptExactly(m: Mem, m': Mem, h: Heap, areas: seq<Area>, h': Heap, c: int, size: int, ptr: int)
    requires Tiled(h, areas) && Reallocated(m, m', h, h', c, size, ptr) && size % ALIGN == 0
    requires Clobbers(h, c, ptr - HEADER, size) ==>
      var rest := ptr - HEADER + size; rest in FreeMap(h') && Rd(m, rest + 24) != FreeMap(h')[rest]
    ensures KeepsPrefix(m, m', h, h', c, ptr) <==> !Clobbers(h, c, ptr - HEADER, size)
  {
    var s := ptr - HEADER;
    if Clobbers(h, c, s, size) {
      hide Tiled, Live, SamePayloads, KeptBeside;
      ClobberedWord(h, areas, c, s, size);
      LiveSize(h', s);
      assert c + HEADER <= s + size + 24 < c + HEADER + (Min(h[c].size, h'[s].size) - HEADER);
    }
  }

  /** The size tag of the remainder lies in the payload that both blocks have room for. */
  lemma ClobberedWord(h: Heap, areas: seq<Area>, c: int, s: int, size: int)
    requires Tiled(h, areas) && Clobbers(h, c, s, size) && size % ALIGN == 0
    ensures c + HEADER <= s + size && s + size + 64 <= c + h[c].size && s + 64 <= c
  {
    hide Tiled;
    ChunkSlots(h, areas, c);
    ChunkSlots(h, areas, s);
    SlotAt(s, size);
    OneSlot(c, s + size);
    OneSlot(s + size, c + h[c].size);
    ChunkSize(h, areas, s);
    OneSlot(s, c);
  }

  lemma CopyOut(m: Mem, m1: Mem, blocks: seq<nat>, areas: seq<Area>, h: Heap, h1: Heap, f: Free, lists: Lists,
                c: int, size: int, ptr: int)
    requires PoolOk(m1, blocks, areas, h1, f, lists) && Allocated(h, h1, size, ptr) && c in Live(h) && Live(h)[c] < size
    requires SamePayloads(m, m1, Live(h))
    ensures var m2 := Move(m1, ptr, c + HEADER, Live(h)[c] - HEADER);
      && PoolOk(m2, blocks, areas, h1, f, lists) && SamePayloads(m, m2, Live(h))
      && PrefixKept(m, m2, c + HEADER, ptr, Live(h)[c] - HEADER)
  {
    hide PoolOk, Move, SamePayloads, PrefixKept, Live;
    var n := Live(h)[c] - HEADER;
    CopyStep(m, m1, blocks, areas, h1, f, lists, ptr - HEADER, c + HEADER, n, Live(h));
    CopiedPrefix(m, m1, h, c, ptr);
  }

  lemma CopiedPrefix(m: Mem, m1: Mem, h: Heap, c: int, ptr: int)
    requires c in Live(h) && SamePayloads(m, m1, Live(h))
    ensures PrefixKept(m, Move(m1, ptr, c + HEADER, Live(h)[c] - HEADER), c + HEADER, ptr, Live(h)[c] - HEADER)
  {
    var n := Live(h)[c] - HEADER;
    forall a | c + HEADER <= a < c + HEADER + n
      ensures Rd(Move(m1, ptr, c + HEADER, n), ptr + (a - (c + HEADER))) == Rd(m, a)
    {
      MoveReads(m1, ptr, c + HEADER, n, ptr + (a - (c + HEADER)));
    }
  }

  lemma FreedPayloads(m: Mem, m2: Mem, m3: Mem, h: Heap, h1: Heap, c: int, size: int, ptr: int)
    requires Allocated(h, h1, size, ptr) && c in Live(h)
    requires SamePayloads(m, m2, Live(h)) && SamePayloads(m2, m3, Live(h1))
    ensures SamePayloads(m, m3, Live(h) - {c})
  {
    forall d | d in Live(h) ensures d in Live(h1) && Live(h1)[d] == Live(h)[d] {
      assert d != ptr - HEADER;
    }
    hide Live;
  }

  lemma FreedPrefix(m: Mem, m2: Mem, m3: Mem, live: map<int, int>, src: int, s: int, n: int)
    requires PrefixKept(m, m2, src, s + HEADER, n) && SamePayloads(m2, m3, live)
    requires s in live && n + HEADER <= live[s]
    ensures PrefixKept(m, m3, src, s + HEADER, n)
  {
    forall a | src <= a < src + n ensures Rd(m3, s + HEADER + (a - src)) == Rd(m, a) {
      assert s + HEADER <= s + HEADER + (a - src) < s + live[s];
    }
  }

  lemma FreedResized(h: Heap, h1: Heap, h3: Heap, c: int, size: int, ptr: int)
    requires Allocated(h, h1, size, ptr) && c in Live(h) && Live(h3) == Live(h1) - {c}
    ensures Resized(h, h3, c, size, ptr) && ptr - HEADER in Live(h3) && Live(h3)[ptr - HEADER] >= size
  {
    assert c != ptr - HEADER;
    assert Live(h3) == (Live(h) - {c})[ptr - HEADER := Live(h3)[ptr - HEADER]];
    hide Live;
  }

  /** Freeing the old block leaves the copy alone. */
  lemma FreeOld(m: Mem, m2: Mem, m3: Mem, h: Heap, h1: Heap, h3: Heap, c: int, size: int, ptr: int)
    requires Allocated(h, h1, size, ptr) && c in Live(h) && Live(h)[c] < size
    requires SamePayloads(m, m2, Live(h)) && PrefixKept(m, m2, c + HEADER, ptr, Live(h)[c] - HEADER)
    requires SamePayloads(m2, m3, Live(h1)) && Live(h3) == Live(h1) - {c}
    requires !Before(h, ptr - HEADER, c)
    ensures Reallocated(m, m3, h, h3, c, size, ptr)
  {
    hide SamePayloads, PrefixKept, Live, Resized;
    FreedPayloads(m, m2, m3, h, h1, c, size, ptr);
    FreedResized(h, h1, h3, c, size, ptr);
    FreedPrefix(m, m2, m3, Live(h1), c + HEADER, ptr - HEADER, Live(h)[c] - HEADER);
    LiveSize(h, c);
    LiveSize(h3, ptr - HEADER);
  }

  /** A block from the search or from a new area is not the chunk before `c` when that is too small. */
  lemma NewBlockApart(h: Heap, h1: Heap, c: int, size: nat, ptr: int)
    requires Allocated(h, h1, size, ptr)
    requires forall p :: Before(h, p, c) ==> h[p].size < size
    requires ptr - HEADER !in h || IsBestFit(FreeMap(h), size, ptr - HEADER)
    ensures !Before(h, ptr - HEADER, c)
  {
  }

  /** The new block has room for the contents of the old one. */
  lemma NewRoom(m: Mem, blocks: seq<nat>, areas: seq<Area>, h: Heap, h1: Heap, f: Free, lists: Lists,
                c: int, size: int, ptr: int)
    requires PoolOk(m, blocks, areas, h1, f, lists) && Allocated(h, h1, size, ptr)
    requires c in h && h[c].size < size
    ensures Tiled(h1, areas) && ptr - HEADER in h1 && h[c].size - HEADER <= h1[ptr - HEADER].size - HEADER
  {
    hide IndexOk, Tiled, Tagged, Coalesced;
  }

  /** A block elsewhere keeps its size when the old one is freed. */
  lemma FarSize(h: Heap, h1: Heap, h3: Heap, c: int, size: nat, ptr: int)
    requires c in h && h[c].size < size && NoRoomNear(h, c, size) && c in Live(h) && Allocated(h, h1, size, ptr)
    requires if NothingFits(FreeMap(h), size) then ptr - HEADER !in h && Live(h1)[ptr - HEADER] == size
             else IsBestFit(FreeMap(h), size, ptr - HEADER) && CutFrom(FreeMap(h), h1, size, ptr)
    requires Live(h3) == Live(h1) - {c}
    ensures CutToSize(h, h3, c, size, ptr)
  {
    hide NoRoomNear;
    assert c != ptr - HEADER && ptr - HEADER in Live(h3);
    assert !NothingFits(FreeMap(h), size) ==> FreeMap(h)[ptr - HEADER] >= size;
    hide Live, RunFor;
  }

  lemma StillLive(h: Heap, h1: Heap, c: int, size: int, ptr: int)
    requires Allocated(h, h1, size, ptr) && c in Live(h)
    ensures c in Live(h1)
  {
  }

  datatype AreaRequest = NoArea | WholeArea(size: nat) | SplitArea(size: nat)

  /** The area an allocation of `size` bytes asks for when no free chunk fits (lines 358-372). */
  function AreaWanted(initSize: nat, moreSize: nat, areas: seq<Area>, size: nat): AreaRequest {
    if moreSize == 0 then
      if areas != [] || size > initSize then NoArea else SplitArea(initSize)
    else if size > moreSize then WholeArea(size)
    else SplitArea(moreSize)
  }

  /** No free chunk holds `size` bytes. */
  ghost predicate NothingFits(f: Free, size: nat) {
    forall d :: d in f ==> f[d] < size
  }

  /**
   Requests the pool is built for: the size does not wrap to 0, no chunk that is too
   small passes the fit test, a new area has a size below 2^31 and lies in fresh
   memory, and one that is split leaves room for a chunk.
   */
  ghost predicate CanServe(initSize: nat, moreSize: nat, areas: seq<Area>, h: Heap, req: nat, raw: nat) {
    && req < WORD64
    && var size := RequestToSize(req);
       && size >= MIN_ALLOC && TestsTruly(FreeMap(h), size)
       && (NothingFits(FreeMap(h), size) && raw != 0 ==>
             match AreaWanted(initSize, moreSize, areas, size)
             case NoArea => true
             case WholeArea(s) => s < MAX_SIZE && FreshBlock(areas, raw, s)
             case SplitArea(s) => s >= size + MIN_ALLOC && FreshBlock(areas, raw, s))
  }

  /** The areas after block `c` is freed: in a growable pool the area of the last block goes. */
  ghost predicate AreasFreed(moreSize: nat, h: Heap, areas: seq<Area>, areas': seq<Area>, c: int)
    requires c in h
  {
    if moreSize == 0 || forall a :: a in areas ==> !LastIn(h, c, a) then areas' == areas
    else exists k: nat :: k < |areas| && LastIn(h, c, areas[k]) && areas' == Dropped(areas, k)
  }

  /** The areas once an allocation is served: one more in front if nothing fitted. */
  function AreasGrown(initSize: nat, moreSize: nat, areas: seq<Area>, fits: bool, size: nat, raw: nat): seq<Area> {
    if fits || AreaWanted(initSize, moreSize, areas, size).NoArea? then areas
    else [Area(AlignUp(raw), AreaWanted(initSize, moreSize, areas, size).size)] + areas
  }

  /** Block `c` was the last in area `a`, and the block at `ptr` that replaces it is elsewhere. */
  ghost predicate Vacated(h: Heap, c: int, a: Area, ptr: int)
    requires c in h
  {
    LastIn(h, c, a) && !(a.First() <= ptr - HEADER < a.End())
  }

  /** The areas after block `c` is replaced by one at `ptr` and freed. */
  ghost predicate AreasMoved(moreSize: nat, h: Heap, grown: seq<Area>, areas': seq<Area>, c: int, ptr: int)
    requires c in h
  {
    if moreSize == 0 || forall a :: a in grown ==> !Vacated(h, c, a, ptr) then areas' == grown
    else exists k: nat :: k < |grown| && Vacated(h, c, grown[k], ptr) && areas' == Dropped(grown, k)
  }

  /** A block that stays in use stays in its area. */
  lemma HomeKept(h: Heap, h1: Heap, areas: seq<Area>, areas1: seq<Area>, d: int)
    requires Tiled(h, areas) && Tiled(h1, areas1) && d in h && d in h1 && h[d].home in areas1
    ensures h1[d].home == h[d].home
  {
    assert ChunkOk(h, areas, d);
    HomeOf(h1, areas1, d, h[d].home);
  }

  lemma InArea(h: Heap, areas: seq<Area>, d: int, a: Area)
    requires Tiled(h, areas) && d in h && a in areas
    ensures h[d].home == a <==> a.First() <= d < a.End()
  {
    assert ChunkOk(h, areas, d);
    if a.First() <= d < a.End() {
      HomeOf(h, areas, d, a);
    }
  }

  /** Whether block `c` is the last in an area, with a new block elsewhere. */
  lemma LastInAfter(h: Heap, h1: Heap, areas: seq<Area>, areas1: seq<Area>, c: int, size: nat, ptr: int, a: Area)
    requires Tiled(h, areas) && Tiled(h1, areas1) && Allocated(h, h1, size, ptr) && c in Live(h) && a in areas1
    requires forall b :: b in areas ==> b in areas1
    ensures c in h && c in h1 && (LastIn(h1, c, a) <==> Vacated(h, c, a, ptr))
  {
    hide Tiled;
    var n := ptr - HEADER;
    forall d | d in Live(h) ensures d in h && d in h1 && d != n && h1[d].used && h1[d].home == h[d].home {
      assert d in Live(h1);
      HomeInAreas(h, areas, d);
      HomeKept(h, h1, areas, areas1, d);
    }
    assert n in Live(h1);
    InArea(h1, areas1, n, a);
    assert forall d :: d in Live(h1) ==> d == n || d in Live(h);
    LastInLive(h, c, a);
    LastInLive(h1, c, a);
  }

  lemma LastInLive(h: Heap, c: int, a: Area)
    requires c in Live(h)
    ensures LastIn(h, c, a) <==> h[c].home == a && forall d :: d in Live(h) && d != c ==> h[d].home != a
  {
  }

  lemma MovedAreas(moreSize: nat, h: Heap, h1: Heap, areas: seq<Area>, areas1: seq<Area>, areas': seq<Area>,
                   c: int, size: nat, ptr: int)
    requires Tiled(h, areas) && Tiled(h1, areas1) && Allocated(h, h1, size, ptr) && c in Live(h) && c in h1
    requires forall b :: b in areas ==> b in areas1
    requires AreasFreed(moreSize, h1, areas1, areas', c)
    ensures AreasMoved(moreSize, h, areas1, areas', c, ptr)
  {
    hide Tiled, LastIn, Live, Allocated;
    assert c in h by { LiveSize(h, c); }
    forall a | a in areas1 ensures LastIn(h1, c, a) <==> Vacated(h, c, a, ptr) {
      LastInAfter(h, h1, areas, areas1, c, size, ptr, a);
    }
  }

  /** Pointers went back to the callback, as many as areas left. */
  ghost predicate Returns(returned: seq<int>, returned': seq<int>, n: int) {
    returned <= returned' && |returned'| == |returned| + n
  }

  /** Giving an area back after the freed run was tagged. */
  lemma AfterFreeArea(m: Mem, m1: Mem, m2: Mem, h: Heap, areas: seq<Area>, areas': seq<Area>)
    requires HeadersOnly(m, m1, h, areas) && AreaWordsOnly(m1, m2, areas')
    requires exists k: nat :: k < |areas| && areas' == Dropped(areas, k)
    ensures MetaOnly(m, m2, h, areas) && |areas'| == |areas| - 1
  {
    hide HeadersOnly, AreaWordsOnly, MetaOnly;
    AreaWordsMeta(m1, m2, h, areas, areas');
    MetaTrans(m, m1, m2, h, areas);
  }

  lemma RunInArea(h: Heap, areas: seq<Area>, s: int, e: int)
    requires Tiled(h, areas) && s in h && s < e && Boundary(h, h[s].home, e)
    ensures e <= h[s].home.End()
  {
    hide Tiled, Boundary;
    BoundaryAfter(h, areas, s, e);
  }

  lemma NoWords(m: Mem, areas: seq<Area>)
    ensures AreaWordsOnly(m, m, areas)
  {
  }

  /** The ring without area `k` is entered at the area behind it. */
  lemma DroppedIs(areas: seq<Area>, k: nat)
    requires k < |areas|
    ensures Dropped(areas, k) == areas[k + 1..] + areas[..k]
  {
  }

  lemma DetachedAreas(m: Mem, blocks: seq<nat>, areas: seq<Area>, h: Heap, f: Free, lists: Lists, c: int)
    requires DetachedOk(m, blocks, areas, h, f, lists, c)
    ensures AreasOk(areas) && c in h && h[c].home in areas
  {
    HomeInAreas(h, areas, c);
  }

  /** Where a resized block ends up: in place, else in its predecessor, else where a new block would. */
  ghost predicate Placed(h: Heap, c: int, size: nat, ptr: int)
    requires c in h
  {
    if RoomInPlace(h, c, size) then ptr == c + HEADER
    else if !NoRoomNear(h, c, size) then RoomFrom(h, ptr - HEADER, c, size)
    else if !NothingFits(FreeMap(h), size) then IsBestFit(FreeMap(h), size, ptr - HEADER)
    else ptr - HEADER !in h
  }

  lemma PlacedFar(h: Heap, c: int, size: nat, ptr: int)
    requires c in h && NoRoomNear(h, c, size)
    requires if NothingFits(FreeMap(h), size) then ptr - HEADER !in h else IsBestFit(FreeMap(h), size, ptr - HEADER)
    ensures Placed(h, c, size, ptr)
  {
  }

  lemma PlacedNear(h: Heap, c: int, size: nat, ptr: int)
    requires c in h && !NoRoomNear(h, c, size)
    requires if RoomInPlace(h, c, size) then ptr == c + HEADER else RoomFrom(h, ptr - HEADER, c, size)
    ensures Placed(h, c, size, ptr)
  {
  }

  lemma RoomHere(h: Heap, c: int, size: int)
    requires c in h
    ensures RoomInPlace(h, c, size) ==> !NoRoomNear(h, c, size)
  {
  }

  lemma RoomBack(h: Heap, c: int, p: int, size: int)
    requires c in h && RoomFrom(h, p, c, size)
    ensures !NoRoomNear(h, c, size)
  {
  }

  lemma NoRoom(h: Heap, c: int, p: int, size: int)
    requires c in h && !RoomInPlace(h, c, size) && !RoomFrom(h, p, c, size)
    requires forall q :: Before(h, q, c) ==> q == p
    ensures NoRoomNear(h, c, size)
  {
  }

  lemma BothNeighbours(h: Heap, c: int, n: int, p: int, e: int)
    requires Grows(h, c, n, n, c, e) && Grows(h, c, n, p, p, n) && OnlyUsed(h, c, e, c) && OnlyUsed(h, p, n, c)
    ensures Grows(h, c, e, p, p, e) && OnlyUsed(h, p, e, c)
  {
  }

  lemma ValidAreas(m: Mem, blocks: seq<nat>, areas: seq<Area>, h: Heap, f: Free, lists: Lists)
    requires PoolOk(m, blocks, areas, h, f, lists)
    ensures AreasOk(areas) && |blocks| == 4
  {
  }

  lemma NoBlocks()
    ensures Live(map[]) == map[]
  {
  }

  lemma ResetHeap(m: Mem, blocks: seq<nat>, areas: seq<Area>, h: Heap, f: Free, lists: Lists)
    requires PoolOk(m, blocks, areas, h, f, lists) && Live(h) == map[]
    ensures forall a :: a in areas ==> a.First() in h && h[a.First()] == Chunk(a.size, false, a)
  {
    EmptyPool(h, areas);
  }

  lemma FitFacts(h: Heap, areas: seq<Area>, size: nat, fit: Fit)
    requires Tiled(h, areas) && IsSearchResult(FreeMap(h), size, fit) && !fit.NoFit?
    ensures var c := fit.chunk;
      && c in FreeMap(h) && c in h && !h[c].used && FreeMap(h)[c] == h[c].size && IsBestFit(FreeMap(h), size, c)
      && h[c].size >= size && (fit.Exact? <==> h[c].size < size + MIN_ALLOC) && c % 64 == 32
  {
    HomeInAreas(h, areas, fit.chunk);
  }

  class AllocPool {
    const initSize: nat  // mAreaInitSize
    const moreSize: nat  // mAreaMoreSize, 0 for a fixed pool

    var mem: Mem
    var blocks: seq<nat>  // mBinBlocks
    var first: int  // mAreas, 0 for NULL

    ghost var areas: seq<Area>  // the ring of areas, from mAreas along mNext
    ghost var heap: Heap
    ghost var free: Free
    ghost var lists: Lists
    ghost var obtained: seq<int>  // pointers the area callback gave out
    ghost var returned: seq<int>  // pointers handed to the callback that frees areas

    ghost predicate Indexed()
      reads this
    {
      IndexOk(mem, blocks, lists, free)
    }

    /** Area sizes are 0 or whole multiples of the alignment that hold a chunk. */
    ghost predicate ConfigOk() {
      AreaSizeOk(initSize) && AreaSizeOk(moreSize)
    }

    /** The area headers link exactly the areas, and the callbacks' pointers are accounted for. */
    ghost predicate Ringed()
      reads this
    {
      RingOk(mem, first, areas, obtained, returned)
    }

    ghost predicate Valid()
      reads this
    {
      ConfigOk() && Ringed() && PoolOk(mem, blocks, areas, heap, free, lists)
    }

    /** Free chunk `c` is off the index and not yet tagged. */
    ghost predicate Detached(c: int)
      reads this
    {
      ConfigOk() && Ringed() && DetachedOk(mem, blocks, areas, heap, free, lists, c)
    }

    // ----- construction and reset

    constructor (areaInitSize: nat, areaMoreSize: nat, raw: nat)
      requires AreaSizeOk(areaInitSize) && AreaSizeOk(areaMoreSize)
      requires areaInitSize != 0 ==> FreshBlock([], raw, areaInitSize)
      ensures Valid() && initSize == areaInitSize && moreSize == areaMoreSize
      ensures Live(heap) == map[] && areas == if areaInitSize == 0 then [] else [Area(AlignUp(raw), areaInitSize)]
      ensures obtained == (if areaInitSize == 0 then [] else [raw]) && returned == []
    {
      initSize, moreSize := areaInitSize, areaMoreSize;
      mem, blocks, first := map[], [0, 0, 0, 0], 0;
      areas, heap, free, lists := [], map[], map[], [];
      obtained, returned := [], [];
      new;
      InitBins();
      NoAreas(mem, blocks, lists);
      NoRing(mem, obtained, returned);
      InitAlloc(raw);
    }

    /** All bins empty, all bits clear. */
    method InitBins()
      requires |blocks| == 4
      modifies this`mem, this`blocks, this`free, this`lists
      ensures Indexed() && free == map[] && lists == NoLists()
      ensures forall a :: a >= 0 ==> Rd(mem, a) == Rd(old(mem), a)
    {
      for i := 0 to NUM_BINS
        invariant |blocks| == 4 && forall j: nat :: j < i ==> Ring(mem, BinAddr(j), [])
        invariant forall a :: a >= 0 ==> Rd(mem, a) == Rd(old(mem), a)
      {
        ghost var m := mem;
        mem := BeEmpty(mem, BinAddr(i));
        EmptyRing(m, BinAddr(i));
        forall j: nat | j < i ensures Ring(mem, BinAddr(j), []) {
          RingFrame(m, mem, BinAddr(j), []);
        }
      }
      ghost var m1 := mem;
      for i := 0 to 4
        invariant mem == m1 && |blocks| == 4 && forall j :: 0 <= j < i ==> blocks[j] == 0
      {
        blocks := blocks[i := 0];
      }
      EmptyIndex(mem, blocks);
      free, lists := map[], NoLists();
    }

    method InitAlloc(raw: nat)
      requires Valid() && (initSize != 0 ==> FreshBlock(areas, raw, initSize))
      modifies this`mem, this`blocks, this`first, this`areas, this`heap, this`free, this`lists, this`obtained
      ensures Valid() && Live(heap) == Live(old(heap))
      ensures areas == if initSize == 0 then old(areas) else [Area(AlignUp(raw), initSize)] + old(areas)
      ensures obtained == if initSize == 0 then old(obtained) else old(obtained) + [raw]
    {
      if initSize == 0 {
        return;
      }
      NewArea(initSize, raw);
      Attach(first + AREA_HEADER);
    }

    /** The walk of FreeAll: every area goes back to the callback, by the pointer it came with. */
    method ReturnAreas()
      requires Linked(mem, first, areas) && AreasOk(areas)
      modifies this`returned
      ensures returned == old(returned) + Raws(mem, areas)
    {
      hide AreasOk, Linked, Raws;
      FirstArea(mem, first, areas);
      RawsAt(mem, areas);
      ghost var raws := Raws(mem, areas);
      var area := first;
      if area == 0 {
        return;
      }
      ghost var k := 0;
      while true
        invariant 0 <= k < |areas| && area == areas[k].base
        invariant returned == old(returned) + raws[..k]
        decreases |areas| - k
      {
        var nextArea := AreaNext(mem, area);
        AroundOrOn(mem, first, areas, k);
        returned := returned + [Unaligned(mem, area)];
        assert raws[..k + 1] == raws[..k] + [raws[k]];
        area := nextArea;
        if area == first {
          break;
        }
        k := k + 1;
      }
      assert raws[..|areas|] == raws;
    }

    method FreeAll()
      requires Valid()
      modifies this`mem, this`blocks, this`first, this`areas, this`heap, this`free, this`lists, this`returned
      ensures Valid() && areas == [] && heap == map[]
      ensures returned == old(returned) + Raws(old(mem), old(areas))
    {
      hide PoolOk, AreasOk, RingOk, Linked, Raws;
      ValidAreas(mem, blocks, areas, heap, free, lists);
      RingFacts(mem, first, areas, obtained, returned);
      AllReturned(mem, areas, obtained, returned);
      ReturnAreas();
      first, areas, heap := 0, [], map[];
      InitBins();
      NoAreas(mem, blocks, lists);
      NoRing(mem, obtained, returned);
    }

    method Reinit(raw: nat)
      requires Valid() && (initSize != 0 ==> FreshBlock([], raw, initSize))
      modifies this`mem, this`blocks, this`first, this`areas, this`heap, this`free, this`lists, this`obtained,
        this`returned
      ensures Valid() && Live(heap) == map[]
      ensures areas == if initSize == 0 then [] else [Area(AlignUp(raw), initSize)]
      ensures obtained == if initSize == 0 then old(obtained) else old(obtained) + [raw]
      ensures returned == old(returned) + Raws(old(mem), old(areas))
    {
      FreeAll();
      InitAlloc(raw);
    }

    /** One turn of FreeAllInternal: the area becomes one free chunk. */
    method ResetArea(base: int, ghost area: Area, ghost done: seq<Area>, ghost all: seq<Area>)
      requires PoolOk(mem, blocks, done, heap, free, lists) && CanAdd(done, area)
      requires base == area.base && AreaSize(mem, base) == area.size
      requires AreasOk(all) && area in all && forall a :: a in done ==> a in all
      modifies this`mem, this`blocks, this`heap, this`free, this`lists
      ensures PoolOk(mem, blocks, [area] + done, heap, free, lists) && Live(heap) == Live(old(heap))
      ensures AreasSame(old(mem), mem, all)
    {
      hide PoolOk, DetachedOk, Live, FreeMap, MarkArea, SamePayloads, HeadersOnly, AreasSame, AreasOk;
      MarkEitherWay(mem, area);
      FreeIsMap(mem, blocks, done, heap, free, lists);
      AddAreaDetached(mem, blocks, done, heap, free, lists, area);
      MarkAreas(mem, area, all);
      var size := AreaSize(mem, base);
      var chunk := base + AREA_HEADER;
      mem := SetTags(mem, chunk, size, false);
      mem := mem[chunk + 16 := 1][chunk + size + 24 := 1];
      heap := heap[chunk := Chunk(size, false, area)];
      DetachedFacts(mem, blocks, [area] + done, heap, free, lists, chunk);
      ghost var m := mem;
      LinkFree(chunk);
      AttachStep(m, mem, blocks, [area] + done, heap, free, lists, chunk);
      HeadersAreas(m, mem, heap, [area] + done, all);
      AreasTrans(old(mem), m, mem, all);
    }

    /** The walk of FreeAllInternal, in the order of the ring. */
    method ResetAreas()
      requires PoolOk(mem, blocks, [], heap, free, lists) && Live(heap) == map[] && Ringed() && AreasOk(areas)
      modifies this`mem, this`blocks, this`heap, this`free, this`lists
      ensures PoolOk(mem, blocks, areas, heap, free, lists) && Live(heap) == map[] && Ringed()
    {
      hide PoolOk, AreasOk, Live, RingOk, Linked, AreasSame;
      ghost var done: seq<Area> := [];
      RingFacts(mem, first, areas, obtained, returned);
      FirstArea(mem, first, areas);
      var area := first;
      if area != 0 {
        ghost var k := 0;
        while true
          invariant 0 <= k < |areas| && area == areas[k].base
          invariant PoolOk(mem, blocks, done, heap, free, lists) && Live(heap) == map[] && Ringed()
          invariant forall a :: a in done <==> a in areas[..k]
          decreases |areas| - k
        {
          RingFacts(mem, first, areas, obtained, returned);
          AroundOrOn(mem, first, areas, k);
          LaterArea(areas, done, k);
          ghost var m := mem;
          var nextArea := AreaNext(mem, area);
          ResetArea(area, areas[k], done, areas);
          RingKept(m, mem, first, areas, obtained, returned);
          done := [areas[k]] + done;
          assert areas[..k + 1] == areas[..k] + [areas[k]];
          area := nextArea;
          if area == first {
            break;
          }
          k := k + 1;
        }
        assert areas[..|areas|] == areas;
      }
      ReorderAreas(mem, blocks, done, areas, heap, free, lists);
    }

    /** FreeAllInternal: every area becomes one free chunk. */
    method FreeAllInternal()
      requires Valid()
      modifies this`mem, this`blocks, this`heap, this`free, this`lists
      ensures Valid() && Live(heap) == map[]
      ensures forall a :: a in areas ==> a.First() in heap && heap[a.First()] == Chunk(a.size, false, a)
    {
      hide PoolOk, AreasOk, Live, RingOk, AreasSame;
      ValidAreas(mem, blocks, areas, heap, free, lists);
      InitBins();
      BinsAreas(old(mem), mem, areas);
      RingKept(old(mem), mem, first, areas, obtained, returned);
      NoAreas(mem, blocks, lists);
      heap := map[];
      NoBlocks();
      ResetAreas();
      ResetHeap(mem, blocks, areas, heap, free, lists);
    }

    // ----- the free index

    method LinkFree(c: int)
      requires Indexed() && c !in free && SlotOk(c, Tag(mem, c))
      modifies this`mem, this`blocks, this`free, this`lists
      ensures Indexed() && free == old(free)[c := old(Tag(mem, c))]
      ensures LinksOnly(old(mem), mem, old(free).Keys + {c})
    {
      hide ListsOk, Rings, Sized, LinksOnly, InsertsInOrder, LinkedIn, BinIndex, Bit, InsertAfter, InsertBefore,
        MarkBinBlock;
      var size := SizeOf(Tag(mem, c));
      var index := BinIndex(size);
      BinIndexMonotone(size, size);
      var bin := BinAddr(index);
      ghost var k := 0;
      MarkBinBits(blocks, index);
      BinEmpty(mem, lists, index);
      if index < NUM_SMALL_BINS || Next(mem, bin) == bin {
        LinkFront(mem, lists, free, c, size, index);
        mem := InsertAfter(mem, c, bin);
        blocks := MarkBinBlock(blocks, index);
      } else {
        var link;
        link, k := FindLink(mem, size, index, lists, free);
        LinkBehind(mem, lists, free, c, size, index, k);
        mem := InsertBefore(mem, c, link);
      }
      LinkIndexOk(old(mem), mem, blocks, lists, free, c, size, index, k);
      lists := lists[index := InsertAt(lists[index], k, c)];
      free := free[c := size];
    }

    method UnlinkFree(c: int)
      requires Indexed() && c in free
      modifies this`mem, this`blocks, this`free, this`lists
      ensures Indexed() && free == old(free) - {c}
      ensures LinksOnly(old(mem), mem, old(free).Keys)
    {
      ghost var i, k := Locate(lists, free, c);
      hide ListsOk, Rings, Sized, LinksOnly;
      UnlinkReads(mem, lists, free, i, k);
      mem := RemoveLeaveDangling(mem, c);
      var size := SizeOf(Tag(mem, c));
      var index := BinIndex(size);
      var bin := BinAddr(index);
      ClearBinBits(blocks, index);
      if Next(mem, bin) == bin {
        blocks := ClearBinBlock(blocks, index);
      }
      UnlinkIndexOk(old(mem), blocks, lists, free, i, k);
      lists := lists[i := RemoveAt(lists[i], k)];
      free := free - {c};
    }

    // ----- allocation

    method Detach(c: int)
      requires Valid() && c in free
      modifies this`mem, this`blocks, this`free, this`lists
      ensures Detached(c) && SamePayloads(old(mem), mem, Live(heap))
    {
      hide RingOk;
      UnlinkFree(c);
      LinksHeaders(old(mem), mem, heap, areas, FreeMap(heap).Keys);
      RingAfterHeaders(old(mem), mem, heap, first, areas, obtained, returned);
      DetachStep(old(mem), mem, blocks, areas, heap, free, lists, c);
    }

    /** `return_chunk`: the whole of a detached chunk goes in use. */
    method Take(c: int)
      requires Detached(c)
      modifies this`mem, this`heap
      ensures Valid() && Live(heap) == Live(old(heap))[c := old(heap)[c].size] && c !in Live(old(heap))
      ensures FreeMap(heap) == FreeMap(old(heap)) - {c}
      ensures SamePayloads(old(mem), mem, Live(old(heap)))
    {
      hide Tiled, Tagged, Coalesced, IndexOk, Fuse, SetTags, Live, FreeMap, SamePayloads, PoolOk, SizeOf, RingOk,
        Boundary, FreeOutside, LiveOutside;
      TakeStep(mem, blocks, areas, heap, free, lists, c);
      ReadFree(mem, heap, areas, c);
      WholeChunk(heap, areas, c);
      RingAfterTags(mem, heap, first, areas, obtained, returned, c, c + heap[c].size, true);
      mem := SetTags(mem, c, SizeOf(Tag(mem, c)), true);
      heap := Fuse(heap, c, c + heap[c].size, true);
    }

    /** `found_bigger_fit`: the front of a detached chunk goes in use, the rest is a new free chunk. */
    method Carve(c: int, size: nat)
      requires Detached(c) && CanSplit(heap, c, size)
      modifies this`mem, this`blocks, this`heap, this`free, this`lists
      ensures Valid() && Live(heap) == Live(old(heap))[c := size] && c !in Live(old(heap))
      ensures FreeMap(heap) == (FreeMap(old(heap)) - {c})[c + size := old(heap)[c].size - size]
      ensures SamePayloads(old(mem), mem, Live(old(heap)))
    {
      hide Tiled, Tagged, Coalesced, IndexOk, LinksOnly, SetTags, Split, Live, FreeMap, SamePayloads, SlotOk, RingOk;
      ReadFree(mem, heap, areas, c);
      RemainderSlot(mem, blocks, lists, heap, areas, c, size);
      SplitMaps(heap, c, size, false);
      var candidateSize := SizeOf(Tag(mem, c));
      var remainderSize := Int32(candidateSize - size);
      FitTestInRange(candidateSize, size);
      var remainder := c + size;
      mem := SetTags(mem, remainder, remainderSize, false);
      LinkFree(remainder);
      CarveStep(old(mem), mem, blocks, areas, heap, free, lists, c, size);
      RingAfterCarve(old(mem), mem, heap, first, areas, obtained, returned, c, size);
      mem := SetTags(mem, c, candidateSize - remainderSize, true);
      heap := Split(heap, c, size, true, false);
    }

    /** Lines 200-215: the header of a new area, which heads the ring. */
    method LinkNewArea(a: Area, raw: nat)
      requires Valid() && CanAdd(areas, a)
      modifies this`mem, this`first, this`obtained
      ensures PoolOk(mem, blocks, areas, heap, free, lists) && RingOk(mem, first, [a] + areas, obtained, returned)
      ensures first == a.base && obtained == old(obtained) + [raw] && Unaligned(mem, first) == raw
      ensures SamePayloads(old(mem), mem, Live(heap)) && AreasOk([a] + areas)
    {
      hide PoolOk, SamePayloads, Live, RingOk, AreasOk, LinkArea, AreaWordsOnly, CanAdd;
      ValidAreas(mem, blocks, areas, heap, free, lists);
      GrownOk(areas, a);
      LinkAreaStep(mem, first, areas, obtained, returned, a, raw);
      mem := mem[a.base + 24 := raw];
      mem := LinkArea(mem, a.base, first);
      first, obtained := a.base, obtained + [raw];
      mem := mem[a.base + 16 := a.size];
      AreaWordsKeep(old(mem), mem, blocks, areas, [a] + areas, heap, free, lists);
    }

    /** Lines 190-221: a new area in front of the ring, all of it one free chunk that is not indexed yet. */
    method NewArea(size: nat, raw: nat)
      requires Valid() && size % ALIGN == 0 && MIN_ALLOC <= size < MAX_SIZE && FreshBlock(areas, raw, size)
      modifies this`mem, this`first, this`areas, this`heap, this`obtained
      ensures areas == [Area(AlignUp(raw), size)] + old(areas) && first == AlignUp(raw)
      ensures Detached(areas[0].First()) && heap[areas[0].First()].size == size
      ensures Live(heap) == Live(old(heap)) && SamePayloads(old(mem), mem, Live(heap))
      ensures free == FreeMap(old(heap)) && areas[0].First() !in old(heap)
      ensures obtained == old(obtained) + [raw] && Unaligned(mem, first) == raw
    {
      hide PoolOk, DetachedOk, SamePayloads, Live, FreeMap, MarkArea, FreshBlock, RingOk, AreasOk, AreasSame,
        CanAdd, Unaligned, BeEmpty;
      var area := Area(AlignUp(raw), size);
      FreshArea(areas, raw, size);
      FreeIsMap(mem, blocks, areas, heap, free, lists);
      LinkNewArea(area, raw);
      label linked:
      EmptyFirst(mem, blocks, areas, heap, free, lists, area);
      PrepareRing(mem, first, areas, obtained, returned, area);
      mem := BeEmpty(mem, area.First());
      AddAreaDetached(mem, blocks, areas, heap, free, lists, area);
      SamePayloadsTrans(old(mem), old@linked(mem), mem, Live(heap));
      SamePayloadsTrans(old(mem), mem, MarkArea(mem, area), Live(heap));
      mem := MarkArea(mem, area);
      areas := [area] + areas;
      heap := heap[area.First() := Chunk(size, false, area)];
    }

    /** The area an allocation of `size` bytes asks for when no free chunk fits (lines 358-372). */
    ghost function Wanted(size: nat): AreaRequest
      reads this`areas
    {
      AreaWanted(initSize, moreSize, areas, size)
    }

    /** No free chunk holds `size` bytes. */
    ghost predicate Exhausted(size: nat)
      reads this`heap
    {
      NothingFits(FreeMap(heap), size)
    }

    ghost predicate Servable(req: nat, raw: nat)
      reads this`areas, this`heap
    {
      CanServe(initSize, moreSize, areas, heap, req, raw)
    }

    /** The exit paths for a chunk found by the search. */
    method AllocFit(size: nat, fit: Fit) returns (ptr: int)
      requires Valid() && size % ALIGN == 0 && size >= MIN_ALLOC
      requires IsSearchResult(FreeMap(heap), size, fit) && !fit.NoFit?
      modifies this`mem, this`blocks, this`heap, this`free, this`lists
      ensures Valid() && Allocated(old(heap), heap, size, ptr)
      ensures SamePayloads(old(mem), mem, Live(old(heap)))
      ensures TakenFrom(FreeMap(old(heap)), FreeMap(heap), size, ptr - HEADER)
      ensures CutFrom(FreeMap(old(heap)), heap, size, ptr)
    {
      hide Tiled, Tagged, Coalesced, IndexOk, SamePayloads, FreeMap, Live, IsBestFit, IsSearchResult, RingOk;
      var c := fit.chunk;
      FitFacts(heap, areas, size, fit);
      Detach(c);
      label taken:
      if fit.Exact? {
        Take(c);
      } else {
        Carve(c, size);
      }
      SamePayloadsTrans(old(mem), old@taken(mem), mem, Live(old(heap)));
      return c + HEADER;
    }

    /** The exit paths for a chunk in a new area. */
    method AllocInNewArea(size: nat, areaSize: nat, split: bool, raw: nat) returns (ptr: int)
      requires Valid() && size % ALIGN == 0 && MIN_ALLOC <= size
      requires areaSize % ALIGN == 0 && areaSize < MAX_SIZE && FreshBlock(areas, raw, areaSize)
      requires if split then areaSize >= size + MIN_ALLOC else areaSize == size
      modifies this`mem, this`blocks, this`first, this`areas, this`heap, this`free, this`lists, this`obtained
      ensures Valid() && Allocated(old(heap), heap, size, ptr) && ptr - HEADER !in old(heap)
      ensures areas == [Area(AlignUp(raw), areaSize)] + old(areas) && ptr - HEADER == areas[0].First()
      ensures Live(heap) == Live(old(heap))[ptr - HEADER := size]
      ensures FreeMap(heap) ==
        if split then FreeMap(old(heap))[ptr - HEADER + size := areaSize - size] else FreeMap(old(heap))
      ensures obtained == old(obtained) + [raw]
      ensures SamePayloads(old(mem), mem, Live(old(heap)))
    {
      hide Tiled, Tagged, Coalesced, IndexOk, SamePayloads, FreshBlock, FreeMap, Live, RingOk, Unaligned;
      NewArea(areaSize, raw);
      label added:
      var candidate := first + AREA_HEADER;
      if split {
        Carve(candidate, size);
      } else {
        Take(candidate);
      }
      SamePayloadsTrans(old(mem), old@added(mem), mem, Live(old(heap)));
      return candidate + HEADER;
    }

    /** `mAreas` is NULL exactly when the pool has no area. */
    lemma FirstNull()
      requires Valid()
      ensures first == 0 <==> areas == []
    {
      ValidAreas(mem, blocks, areas, heap, free, lists);
      FirstArea(mem, first, areas);
    }

    /** `raw` is what the area callback would return, 0 for NULL. */
    method Alloc(req: nat, raw: nat) returns (r: Outcome)
      requires Valid() && Servable(req, raw)
      modifies this`mem, this`blocks, this`first, this`areas, this`heap, this`free, this`lists, this`obtained
      ensures Valid()
      ensures !r.Block? ==> mem == old(mem) && first == old(first) && areas == old(areas) && heap == old(heap)
      ensures !r.Block? ==> old(Exhausted(RequestToSize(req)))
      ensures r.Null? ==> moreSize == 0 && (old(areas) != [] || RequestToSize(req) > initSize)
      ensures r.Threw? ==> raw == 0 && (moreSize != 0 || (old(areas) == [] && RequestToSize(req) <= initSize))
      ensures r.Block? ==> Allocated(old(heap), heap, RequestToSize(req), r.ptr)
      ensures r.Block? ==> SamePayloads(old(mem), mem, Live(old(heap)))
      ensures r.Block? && !old(Exhausted(RequestToSize(req))) ==>
        && areas == old(areas) && TakenFrom(FreeMap(old(heap)), FreeMap(heap), RequestToSize(req), r.ptr - HEADER)
        && CutFrom(FreeMap(old(heap)), heap, RequestToSize(req), r.ptr)
      ensures r.Block? && !old(Exhausted(RequestToSize(req))) ==>
        var size, held := RequestToSize(req), FreeMap(old(heap))[r.ptr - HEADER];
        Live(heap)[r.ptr - HEADER] == if held >= size + MIN_ALLOC then size else held
      ensures r.Block? && old(Exhausted(RequestToSize(req))) ==>
        InNewArea(initSize, moreSize, old(areas), old(heap), areas, heap, RequestToSize(req), raw, r.ptr)
      ensures r.Block? && old(Exhausted(RequestToSize(req))) ==>
        var c, size := r.ptr - HEADER, RequestToSize(req);
        var areaSize := if moreSize == 0 then initSize else if size > moreSize then size else moreSize;
        && raw != 0 && areas == [Area(AlignUp(raw), areaSize)] + old(areas)
        && c == areas[0].First() && c !in old(heap)
        && (moreSize == 0 ==> old(areas) == [] && size <= initSize)
        && Live(heap) == Live(old(heap))[c := size]
        && FreeMap(heap) ==
           (if areaSize == size then FreeMap(old(heap)) else FreeMap(old(heap))[c + size := areaSize - size])
      ensures r.Block? ==>
        var size := RequestToSize(req);
        areas == AreasGrown(initSize, moreSize, old(areas), !old(Exhausted(size)), size, raw)
      ensures obtained == if |areas| == |old(areas)| then old(obtained) else old(obtained) + [raw]
    {
      hide Tiled, Tagged, Coalesced, IndexOk, SamePayloads, FreshBlock, RequestToSize, FreeMap, Live, Allocated,
        TakenFrom, RingOk, AlignUp;
      FirstNull();
      var size := RequestToSize(req);
      RequestAligned(req);
      var fit := Search(mem, blocks, size, lists, free);
      if !fit.NoFit? {
        var ptr := AllocFit(size, fit);
        return Block(ptr);
      }
      var areaSize, split := size, false;
      if moreSize == 0 {
        if first != 0 || size > initSize {
          return Null;
        }
        areaSize, split := initSize, true;
      } else if size <= moreSize {
        areaSize, split := moreSize, true;
      }
      if raw == 0 {
        return Threw;
      }
      var ptr := AllocInNewArea(size, areaSize, split, raw);
      return Block(ptr);
    }

    // ----- deallocation

    /** The chunks of `[s, e)` are off the index. */
    ghost predicate Region(s: int, e: int)
      reads this
    {
      ConfigOk() && Ringed() && RegionOk(mem, blocks, areas, heap, free, lists, s, e)
    }

    /** Takes a free neighbour off the index to join it to the run `[s, e)`. */
    method Absorb(x: int, ghost s: int, ghost e: int, ghost s': int, ghost e': int)
      requires Region(s, e) && Grows(heap, s, e, x, s', e')
      modifies this`mem, this`blocks, this`free, this`lists
      ensures Region(s', e') && HeadersOnly(old(mem), mem, heap, areas)
    {
      hide RingOk;
      GrowRegion(heap, areas, s, e, x, s', e');
      UnlinkFree(x);
      AbsorbStep(old(mem), mem, blocks, areas, heap, lists, s, e, x, s', e');
      RingAfterHeaders(old(mem), mem, heap, first, areas, obtained, returned);
    }

    /** Indexes the detached chunk `c`. */
    method Attach(c: int)
      requires Detached(c)
      modifies this`mem, this`blocks, this`free, this`lists
      ensures Valid() && HeadersOnly(old(mem), mem, heap, areas)
    {
      hide RingOk;
      ReadFree(mem, heap, areas, c);
      LinkFree(c);
      AttachStep(old(mem), mem, blocks, areas, heap, free, lists, c);
      RingAfterHeaders(old(mem), mem, heap, first, areas, obtained, returned);
    }

    /** IsArea: a free chunk between the two markers of an area. */
    predicate IsArea(chunk: int)
      reads this`mem
    {
      PrevTag(mem, chunk) == 1 && Tag(mem, chunk + SizeOf(Tag(mem, chunk))) == 1
    }

    /** FreeArea: the area goes back to the callback by the pointer it came with, and `mAreas` moves on. */
    method FreeArea(chunk: int)
      requires Detached(chunk) && chunk == heap[chunk].home.First() && heap[chunk].size == heap[chunk].home.size
      modifies this`mem, this`first, this`areas, this`heap, this`returned
      ensures Valid() && Live(heap) == Live(old(heap)) && AreaWordsOnly(old(mem), mem, areas)
      ensures exists k: nat ::
        && k < |old(areas)| && old(areas)[k] == old(heap)[chunk].home
        && areas == Dropped(old(areas), k) == old(areas)[k + 1..] + old(areas)[..k]
      ensures returned == old(returned) + [Unaligned(old(mem), chunk - AREA_HEADER)]
    {
      hide DetachedOk, PoolOk, RingOk, AreasOk, AreaWordsOnly, UnlinkArea, Live, Dropped;
      DetachedAreas(mem, blocks, areas, heap, free, lists, chunk);
      var area := chunk - AREA_HEADER;
      ghost var k :| 0 <= k < |areas| && areas[k] == heap[chunk].home;
      DroppedOk(areas, k);
      DroppedIs(areas, k);
      UnlinkAreaStep(mem, first, areas, obtained, returned, k);
      DropStep(mem, blocks, areas, heap, free, lists, k);
      areas, heap := Dropped(areas, k), heap - {chunk};
      returned := returned + [Unaligned(mem, area)];
      if AreaNext(mem, area) == area {
        first := 0;
        NoWords(mem, areas);
      } else {
        var next := AreaNext(mem, area);
        AreaWordsKeep(mem, UnlinkArea(mem, area), blocks, areas, areas, heap, free, lists);
        mem := UnlinkArea(mem, area);
        first := next;
      }
    }

    /** The run `[s, e)` of block `c` and its free neighbours, in use on both sides. */
    ghost predicate Consolidated(c: int, s: int, e: int)
      reads this
    {
      && Region(s, e) && OnlyUsed(heap, s, e, c)
      && (e in heap ==> heap[e].used) && UsedBefore(s)
    }

    ghost predicate UsedBefore(s: int)
      reads this`heap
    {
      forall p :: p in heap && p + heap[p].size == s ==> heap[p].used
    }

    /** Lines 162-170: joins block `c` with a free predecessor. */
    method JoinPrev(c: int) returns (chunk: int, size: int)
      requires Valid() && c in Live(heap)
      modifies this`mem, this`blocks, this`free, this`lists
      ensures Region(chunk, chunk + size) && OnlyUsed(heap, chunk, chunk + size, c) && UsedBefore(chunk)
      ensures HeadersOnly(old(mem), mem, heap, areas)
    {
      hide PoolOk, RegionOk, OnlyUsed, HeadersOnly, Grows, RingOk;
      PrevFacts(mem, blocks, areas, heap, free, lists, c);
      HeadersSame(mem, heap, areas);
      chunk, size := c, SizeOf(Tag(mem, c));
      if !InUseBit(PrevTag(mem, chunk)) {
        var prevSize := SizeOf(PrevTag(mem, chunk));
        chunk := chunk - prevSize;
        size := size + prevSize;
        Absorb(chunk, c, c + heap[c].size, chunk, chunk + size);
      }
    }

    /** Lines 172-177: joins the run with a free successor. */
    method JoinNext(chunk: int, size: int, ghost c: int) returns (size': int)
      requires Region(chunk, chunk + size) && OnlyUsed(heap, chunk, chunk + size, c) && UsedBefore(chunk)
      modifies this`mem, this`blocks, this`free, this`lists
      ensures Consolidated(c, chunk, chunk + size') && HeadersOnly(old(mem), mem, heap, areas)
    {
      hide RegionOk, OnlyUsed, Live, HeadersOnly, Grows, RingOk;
      NextFacts(mem, blocks, areas, heap, free, lists, chunk, chunk + size, c);
      HeadersSame(mem, heap, areas);
      var next := chunk + size;
      size' := size;
      if !InUseBit(Tag(mem, next)) {
        size' := size + SizeOf(Tag(mem, next));
        Absorb(next, chunk, next, chunk, chunk + size');
      }
    }

    /** Lines 179-185: tags the run as free and indexes it, or gives its area back. */
    method Release(chunk: int, size: int, ghost c: int)
      requires Consolidated(c, chunk, chunk + size)
      modifies this`mem, this`blocks, this`first, this`areas, this`heap, this`free, this`lists, this`returned
      ensures Valid() && Live(heap) == Live(old(heap)) - {c} && MetaOnly(old(mem), mem, old(heap), old(areas))
      ensures areas == old(areas) ==> HeadersOnly(old(mem), mem, old(heap), old(areas))
      ensures c in old(heap) && AreasFreed(moreSize, old(heap), old(areas), areas, c)
      ensures Returns(old(returned), returned, |old(areas)| - |areas|)
    {
      hide RegionOk, PoolOk, DetachedOk, HeadersOnly, Live, Fuse, LastIn, OnlyUsed, SetTags, RingOk, MetaOnly,
        AreaWordsOnly;
      ghost var e := chunk + size;
      ReleaseStep(mem, blocks, areas, heap, free, lists, chunk, e, c);
      RegionFacts(mem, blocks, areas, heap, free, lists, chunk, e);
      RingAfterHeaders(mem, SetTags(mem, chunk, size, false), heap, first, areas, obtained, returned);
      mem := SetTags(mem, chunk, size, false);
      heap := Fuse(heap, chunk, e, false);
      label tagged:
      ghost var h' := heap;
      AreaTags(mem, blocks, areas, heap, free, lists, chunk);
      if moreSize != 0 && IsArea(chunk) {
        FreeArea(chunk);
        AfterFreeArea(old(mem), old@tagged(mem), mem, old(heap), old(areas), areas);
      } else {
        Attach(chunk);
        HeadersWiden(old@tagged(mem), mem, old(heap), h', old(areas));
        HeadersTrans(old(mem), old@tagged(mem), mem, old(heap), old(areas));
        HeadersMeta(old(mem), mem, old(heap), old(areas));
      }
    }

    method Free(ptr: int)
      requires Valid() && (ptr == 0 || ptr - HEADER in Live(heap))
      modifies this`mem, this`blocks, this`first, this`areas, this`heap, this`free, this`lists, this`returned
      ensures Valid()
      ensures ptr == 0 ==> heap == old(heap) && mem == old(mem) && first == old(first) && areas == old(areas)
      ensures ptr != 0 ==> Live(heap) == Live(old(heap)) - {ptr - HEADER}
      ensures MetaOnly(old(mem), mem, old(heap), old(areas))
      ensures areas == old(areas) ==> HeadersOnly(old(mem), mem, old(heap), old(areas))
      ensures SamePayloads(old(mem), mem, Live(old(heap)))
      ensures ptr != 0 ==> AreasFreed(moreSize, old(heap), old(areas), areas, ptr - HEADER)
      ensures Returns(old(returned), returned, |old(areas)| - |areas|)
    {
      hide Tiled, RegionOk, LastIn, HeadersOnly, SamePayloads, OnlyUsed, MetaOnly, RingOk, AreasFreed;
      HeadersSame(mem, heap, areas);
      HeadersMeta(mem, mem, heap, areas);
      if ptr == 0 {
        return;
      }
      var chunk, size := JoinPrev(ptr - HEADER);
      label back:
      size := JoinNext(chunk, size, ptr - HEADER);
      label joined:
      Release(chunk, size, ptr - HEADER);
      HeadersTrans(old(mem), old@back(mem), old@joined(mem), old(heap), old(areas));
      if areas == old(areas) {
        HeadersTrans(old(mem), old@joined(mem), mem, old(heap), old(areas));
      }
      MetaTrans(old(mem), old@joined(mem), mem, old(heap), old(areas));
      MetaPayloads(old(mem), mem, old(heap), old(areas));
    }

    // ----- reallocation

    /** Lines 444-484: finds room for `size` bytes in block `c` and its free neighbours. */
    method Expand(c: int, size: int) returns (ok: bool, s: int, newsize: int)
      requires Valid() && c in Live(heap)
      modifies this`mem, this`blocks, this`free, this`lists
      ensures !ok ==> Valid() && mem == old(mem) && heap[c].size < size
      ensures !ok ==> forall p :: Before(heap, p, c) ==> heap[p].size < size
      ensures !ok <==> NoRoomNear(heap, c, size)
      ensures ok ==> if RoomInPlace(heap, c, size) then s == c else RoomFrom(heap, s, c, size)
      ensures ok ==> Region(s, s + newsize) && OnlyUsed(heap, s, s + newsize, c) && size <= newsize
      ensures ok ==> s == c || (Before(heap, s, c) && s + newsize == RunEnd(heap, c))
      ensures ok && heap[c].size >= size ==> s == c
      ensures ok ==> newsize == RunFor(heap, c, size, s)
      ensures HeadersOnly(old(mem), mem, heap, areas)
    {
      hide PoolOk, RegionOk, OnlyUsed, HeadersOnly, RunEnd, Before, NoRoomNear, RingOk;
      RoomHere(heap, c, size);
      PrevFacts(mem, blocks, areas, heap, free, lists, c);
      NextFacts(mem, blocks, areas, heap, free, lists, c, c + heap[c].size, c);
      PrevBlock(mem, blocks, areas, heap, free, lists, c);
      NextEnd(mem, blocks, areas, heap, free, lists, c);
      HeadersSame(mem, heap, areas);
      s, newsize := c, SizeOf(Tag(mem, c));
      if newsize >= size {
        return true, s, newsize;
      }
      var next := c + newsize;
      var nextFree := !InUseBit(Tag(mem, next));
      var nextsize := if nextFree then SizeOf(Tag(mem, next)) else 0;
      if nextFree && nextsize + newsize >= size {
        Absorb(next, c, next, c, next + nextsize);
        return true, c, newsize + nextsize;
      }
      var prev := c - SizeOf(PrevTag(mem, c));
      if !InUseBit(Tag(mem, prev)) {
        var prevsize := SizeOf(Tag(mem, prev));
        if nextFree && nextsize + prevsize + newsize >= size {
          RoomBack(heap, c, prev, size);
          BothNeighbours(heap, c, next, prev, next + nextsize);
          Absorb(next, c, next, c, next + nextsize);
          label forward:
          Absorb(prev, c, next + nextsize, prev, next + nextsize);
          HeadersTrans(old(mem), old@forward(mem), mem, heap, areas);
          return true, prev, newsize + nextsize + prevsize;
        }
        if prevsize + newsize >= size {
          RoomBack(heap, c, prev, size);
          Absorb(prev, c, next, prev, next);
          return true, prev, newsize + prevsize;
        }
      }
      NoRoom(heap, c, prev, size);
      return false, c, newsize;
    }

    /** What is left of a run of `newsize` bytes cut to `size`. */
    static function Fitted(newsize: int, size: int): int {
      if newsize - size >= MIN_ALLOC then size else newsize
    }

    /** Lines 506-516: tags the run at `s` as one block of `size` bytes and frees the excess. */
    method Settle(s: int, newsize: int, size: int, ghost c: int)
      requires Region(s, s + newsize) && OnlyUsed(heap, s, s + newsize, c)
      requires size % ALIGN == 0 && MIN_ALLOC <= size <= newsize
      modifies this`mem, this`blocks, this`first, this`areas, this`heap, this`free, this`lists, this`returned
      ensures Valid() && Live(heap) == (Live(old(heap)) - {c})[s := Fitted(newsize, size)]
      ensures newsize - size >= MIN_ALLOC ==> HeadersOr(old(mem), mem, old(heap), old(areas), s + size)
      ensures newsize - size < MIN_ALLOC ==> HeadersOnly(old(mem), mem, old(heap), old(areas))
      ensures newsize - size >= MIN_ALLOC ==> s + size in free && Tag(mem, s + size) == free[s + size]
      ensures areas == old(areas) && returned == old(returned)
    {
      hide PoolOk, RegionOk, OnlyUsed, HeadersOnly, HeadersOr, Tiled, Boundary, Fuse, FuseSplit, SetTags, Live,
        LiveOutside, RingOk, MetaOnly;
      ghost var e := s + newsize;
      ghost var h := heap;
      OnlyUsedLive(heap, s, e, c);
      RegionFacts(mem, blocks, areas, heap, free, lists, s, e);
      if newsize - size >= MIN_ALLOC {
        var remainderSize := newsize - size;
        var remainder := s + size;
        SplitUsedStep(mem, blocks, areas, heap, free, lists, s, e, size);
        SplitFrame(mem, blocks, areas, heap, free, lists, s, e, size);
        RunInArea(heap, areas, s, e);
        RingAfterMore(mem, SplitTagWrites(mem, s, e, size), heap, first, areas, obtained, returned, s + size, s);
        mem := SetTags(mem, remainder, remainderSize, true);
        mem := SetTags(mem, s, size, true);
        heap := FuseSplit(heap, s, e, size);
        label tagged:
        NotLast(heap, s, remainder);
        RemainderLive(heap, s, remainder);
        Free(remainder + HEADER);
        DropRemainder(h, s, e, size, remainderSize);
        assert Live(old@tagged(heap)) == LiveOutside(h, s, e)[s := size][s + size := remainderSize];
        assert Live(heap) == Live(old@tagged(heap)) - {s + size};
        LiveSize(heap, s);
        AfterSettle(old(mem), old@tagged(mem), mem, h, old@tagged(heap), old(areas), s + size);
        RemainderFree(mem, blocks, old(areas), areas, h, heap, free, lists, s, e, size);
      } else {
        CloseUsed(mem, blocks, areas, heap, free, lists, s, e);
        RingAfterTags(mem, heap, first, areas, obtained, returned, s, e, true);
        mem := SetTags(mem, s, newsize, true);
        heap := Fuse(heap, s, e, true);
      }
    }

    /** Resizing in place or into the free neighbours (lines 444-481 and 501-520). */
    method ReallocNear(c: int, size: int) returns (ok: bool, ptr: int)
      requires Valid() && c in Live(heap) && size % ALIGN == 0 && MIN_ALLOC <= size
      modifies this`mem, this`blocks, this`first, this`areas, this`heap, this`free, this`lists, this`returned
      ensures Valid()
      ensures !ok ==> mem == old(mem) && first == old(first) && heap == old(heap)
      ensures !ok <==> NoRoomNear(old(heap), c, size)
      ensures ok ==>
        if RoomInPlace(old(heap), c, size) then ptr == c + HEADER else RoomFrom(old(heap), ptr - HEADER, c, size)
      ensures !ok ==> old(heap)[c].size < size && forall p :: Before(old(heap), p, c) ==> old(heap)[p].size < size
      ensures ok ==> Reallocated(old(mem), mem, old(heap), heap, c, size, ptr)
      ensures ok ==> CutToSize(old(heap), heap, c, size, ptr)
      ensures areas == old(areas) && returned == old(returned)
    {
      hide PoolOk, RegionOk, Tiled, OnlyUsed, HeadersOnly, HeadersOr, SamePayloads, Live, FreeMap, PrefixKept,
        Clobbers, SettleFrame, Tag, RunEnd, Move, RingOk;
      ghost var h, m := heap, mem;
      PoolFacts(mem, blocks, areas, heap, free, lists, c);
      var oldsize := SizeOf(Tag(mem, c));
      var s, newsize;
      ok, s, newsize := Expand(c, size);
      if !ok {
        return false, 0;
      }
      label expanded:
      RegionFacts(mem, blocks, areas, heap, free, lists, s, s + newsize);
      Settle(s, newsize, size, c);
      SettleFrameIntro(old@expanded(mem), mem, h, old(areas), s, newsize, size);
      SettleFrameTrans(m, old@expanded(mem), mem, h, old(areas), s, newsize, size);
      NotOther(h, c, s);
      LiveSize(heap, s);
      FreeIsMap(mem, blocks, areas, heap, free, lists);
      ptr := s + HEADER;
      if s == c {
        InPlaceStep(m, mem, h, old(areas), c, newsize, size);
        NotBefore(h, c, size);
      } else {
        MovedStep(m, mem, blocks, old(areas), areas, h, heap, free, lists, c, s, newsize, size);
        PoolFacts(mem, blocks, areas, heap, free, lists, s);
        RingAfterMove(mem, heap, first, areas, obtained, returned, s, c + HEADER, oldsize - HEADER);
        mem := Move(mem, ptr, c + HEADER, oldsize - HEADER);
      }
    }

    /** Lines 485-497: a new block elsewhere, a copy, and the old block freed. */
    method ReallocFar(c: int, req: nat, raw: nat) returns (r: Outcome)
      requires Valid() && c in Live(heap) && Servable(req, raw)
      requires heap[c].size < RequestToSize(req)
      requires forall p :: Before(heap, p, c) ==> heap[p].size < RequestToSize(req)
      modifies this`mem, this`blocks, this`first, this`areas, this`heap, this`free, this`lists, this`obtained,
        this`returned
      ensures Valid()
      ensures !r.Block? ==> r.Threw?
      ensures !r.Block? ==> mem == old(mem) && first == old(first) && areas == old(areas) && heap == old(heap)
      ensures !r.Block? ==> obtained == old(obtained) && returned == old(returned)
      ensures !r.Block? ==> old(Exhausted(RequestToSize(req)))
      ensures r.Block? ==> Reallocated(old(mem), mem, old(heap), heap, c, RequestToSize(req), r.ptr)
      ensures r.Block? ==>
        if old(Exhausted(RequestToSize(req))) then r.ptr - HEADER !in old(heap)
        else IsBestFit(FreeMap(old(heap)), RequestToSize(req), r.ptr - HEADER)
      ensures r.Block? && NoRoomNear(old(heap), c, RequestToSize(req)) ==>
        CutToSize(old(heap), heap, c, RequestToSize(req), r.ptr)
      ensures r.Block? ==>
        var size := RequestToSize(req);
        AreasMoved(moreSize, old(heap), AreasGrown(initSize, moreSize, old(areas), !old(Exhausted(size)), size, raw),
                   areas, c, r.ptr)
      ensures old(obtained) <= obtained && old(returned) <= returned
    {
      hide PoolOk, SamePayloads, RequestToSize, Reallocated, Live, FreeMap, Move, PrefixKept, Before, IsBestFit,
        Wanted, NothingFits, RingOk, MetaOnly, HeadersOnly, AreasMoved, AreasFreed, AreaWanted, Allocated;
      ghost var h, m, size := heap, mem, RequestToSize(req);
      PoolFacts(mem, blocks, areas, heap, free, lists, c);
      var oldsize := SizeOf(Tag(mem, c));
      r := Alloc(req, raw);
      if !r.Block? {
        return Threw;
      }
      NewBlockApart(h, heap, c, size, r.ptr);
      CopyOut(m, mem, blocks, areas, h, heap, free, lists, c, size, r.ptr);
      NewRoom(mem, blocks, areas, h, heap, free, lists, c, size, r.ptr);
      RingAfterMove(mem, heap, first, areas, obtained, returned, r.ptr - HEADER, c + HEADER, oldsize - HEADER);
      mem := Move(mem, r.ptr, c + HEADER, oldsize - HEADER);
      label copied:
      StillLive(h, heap, c, size, r.ptr);
      PoolFacts(mem, blocks, areas, heap, free, lists, c);
      Free(c + HEADER);
      if NoRoomNear(h, c, size) {
        FarSize(h, old@copied(heap), heap, c, size, r.ptr);
      }
      MovedAreas(moreSize, h, old@copied(heap), old(areas), old@copied(areas), areas, c, size, r.ptr);
      FreeOld(m, old@copied(mem), mem, h, old@copied(heap), heap, c, size, r.ptr);
    }

    method Realloc(ptr: int, req: nat, raw: nat) returns (r: Outcome)
      requires Valid() && (ptr == 0 || ptr - HEADER in Live(heap))
      requires req < WORD64 && RequestToSize(req) >= MIN_ALLOC
      requires ptr == 0 || NoRoomNear(heap, ptr - HEADER, RequestToSize(req)) ==> Servable(req, raw)
      modifies this`mem, this`blocks, this`first, this`areas, this`heap, this`free, this`lists, this`obtained,
        this`returned
      ensures Valid()
      ensures !r.Block? ==> mem == old(mem) && first == old(first) && areas == old(areas) && heap == old(heap)
      ensures !r.Block? ==> obtained == old(obtained) && returned == old(returned)
      ensures !r.Block? ==> old(Exhausted(RequestToSize(req)))
      ensures r.Null? ==> ptr == 0 && moreSize == 0 && (old(areas) != [] || RequestToSize(req) > initSize)
      ensures ptr == 0 && r.Threw? ==>
        raw == 0 && (moreSize != 0 || (old(areas) == [] && RequestToSize(req) <= initSize))
      ensures ptr == 0 && r.Block? ==> Allocated(old(heap), heap, RequestToSize(req), r.ptr)
      ensures ptr == 0 && r.Block? ==> SamePayloads(old(mem), mem, Live(old(heap)))
      ensures ptr != 0 && !r.Block? ==> NoRoomNear(old(heap), ptr - HEADER, RequestToSize(req))
      ensures ptr != 0 && r.Block? ==>
        Reallocated(old(mem), mem, old(heap), heap, ptr - HEADER, RequestToSize(req), r.ptr)
      ensures ptr != 0 && r.Block? ==> Placed(old(heap), ptr - HEADER, RequestToSize(req), r.ptr)
      ensures ptr != 0 && r.Block? ==> CutToSize(old(heap), heap, ptr - HEADER, RequestToSize(req), r.ptr)
      ensures ptr == 0 ==> obtained == if |areas| == |old(areas)| then old(obtained) else old(obtained) + [raw]
      ensures ptr == 0 ==> returned == old(returned)
      ensures ptr == 0 && r.Block? && !old(Exhausted(RequestToSize(req))) ==>
        && areas == old(areas) && TakenFrom(FreeMap(old(heap)), FreeMap(heap), RequestToSize(req), r.ptr - HEADER)
        && CutFrom(FreeMap(old(heap)), heap, RequestToSize(req), r.ptr)
      ensures ptr == 0 && r.Block? && old(Exhausted(RequestToSize(req))) ==>
        raw != 0 && InNewArea(initSize, moreSize, old(areas), old(heap), areas, heap, RequestToSize(req), raw, r.ptr)
      ensures ptr != 0 && r.Block? ==>
        var c, size := ptr - HEADER, RequestToSize(req);
        if !NoRoomNear(old(heap), c, size) then areas == old(areas)
        else AreasMoved(moreSize, old(heap),
                        AreasGrown(initSize, moreSize, old(areas), !old(Exhausted(size)), size, raw), areas, c, r.ptr)
      ensures old(obtained) <= obtained && old(returned) <= returned
    {
      hide PoolOk, SamePayloads, RequestToSize, Reallocated, Allocated, NothingFits, TakenFrom, Live, Placed,
        NoRoomNear, IsBestFit, RingOk;
      ghost var h := heap;
      if ptr == 0 {
        r := Alloc(req, raw);
        return;
      }
      RequestAligned(req);
      LiveSize(heap, ptr - HEADER);
      var ok, near := ReallocNear(ptr - HEADER, RequestToSize(req));
      if ok {
        PlacedNear(h, ptr - HEADER, RequestToSize(req), near);
        return Block(near);
      }
      r := ReallocFar(ptr - HEADER, req, raw);
      if r.Block? {
        PlacedFar(h, ptr - HEADER, RequestToSize(req), r.ptr);
      }
    }

    // ----- debugging queries

    /** The free bytes are what the blocks in use leave of the areas. */
    method TotalFree() returns (total: int)
      requires Valid()
      ensures total == AreaTotal(areas) - MapSum(Live(heap))
    {
      BytesConserved(heap, areas);
      total := Queries.TotalFree(mem, blocks, lists, free);
    }

    /** The size of a largest free chunk; with none, the code reads a bin that does not exist. */
    method LargestFreeChunk() returns (r: Queries.Largest)
      requires Valid()
      ensures r.BeforeBins? <==> forall c :: c !in FreeMap(heap)
      ensures r.Size? ==> Queries.IsLargest(FreeMap(heap), r.bytes)
    {
      r := Queries.LargestFreeChunk(mem, blocks, lists, free);
    }
  }
}
