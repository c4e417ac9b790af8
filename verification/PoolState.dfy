/**
 The pool invariant on values, and how the elementary updates of memory keep it.
 */
module PoolState {
  import opened Words
  import opened Sizes
  import opened Links
  import opened Bins
  import opened FreeIndex
  import opened Chunks
  import opened Tags

  /** The free chunks of a heap with their sizes. */
  ghost function FreeMap(h: Heap): Free {
    map c | c in h && !h[c].used :: h[c].size
  }

  /** The chunks in use with their sizes. */
  ghost function Live(h: Heap): map<int, int> {
    map c | c in h && h[c].used :: h[c].size
  }

  /** The payload words of every block of `live` are the same. */
  ghost predicate SamePayloads(m: Mem, m': Mem, live: map<int, int>) {
    forall c, a :: c in live && c + HEADER <= a < c + live[c] ==> Rd(m', a) == Rd(m, a)
  }

  // ----- payloads lie between headers

  /** A payload address is in no chunk header and in no end marker. */
  lemma PayloadMiss(h: Heap, areas: seq<Area>, d: int, a: int, x: int)
    requires Tiled(h, areas) && d in h && d + HEADER <= a < d + h[d].size
    requires x in h || exists r :: r in areas && x == r.End()
    ensures a < x || a >= x + HEADER
    ensures a >= 0
  {
    assert ChunkOk(h, areas, d);
    if x in h {
      assert ChunkOk(h, areas, x);
    } else {
      var r :| r in areas && x == r.End();
      if r != h[d].home {
        AreasApart(areas, r, h[d].home);
      }
    }
  }

  /** A chunk header or an end marker starts at `x`. */
  ghost predicate HeaderAt(h: Heap, areas: seq<Area>, x: int) {
    x in h || exists r :: r in areas && x == r.End()
  }

  ghost predicate HeaderWord(h: Heap, areas: seq<Area>, a: int) {
    exists x :: HeaderAt(h, areas, x) && x <= a < x + HEADER
  }

  /** Outside the pool object, only words of chunk headers and end markers may differ. */
  ghost predicate HeadersOnly(m: Mem, m': Mem, h: Heap, areas: seq<Area>) {
    forall a :: a >= 0 && !HeaderWord(h, areas, a) ==> Rd(m', a) == Rd(m, a)
  }

  lemma LinksHeaders(m: Mem, m': Mem, h: Heap, areas: seq<Area>, keys: set<int>)
    requires LinksOnly(m, m', keys) && keys <= h.Keys
    ensures HeadersOnly(m, m', h, areas)
  {
    forall a | a >= 0 && !HeaderWord(h, areas, a) ensures Rd(m', a) == Rd(m, a) {
      assert HeaderAt(h, areas, a) ==> HeaderWord(h, areas, a);
      assert HeaderAt(h, areas, a - 8) ==> HeaderWord(h, areas, a);
    }
  }

  lemma TagsHeaders(m: Mem, h: Heap, areas: seq<Area>, c: int, e: int, used: bool)
    requires Tiled(h, areas) && c in h && c < e && Boundary(h, h[c].home, e)
    ensures HeadersOnly(m, SetTags(m, c, e - c, used), h, areas)
  {
    assert ChunkOk(h, areas, c);
    assert HeaderAt(h, areas, c) && HeaderAt(h, areas, e);
  }

  lemma HeadersSame(m: Mem, h: Heap, areas: seq<Area>)
    ensures HeadersOnly(m, m, h, areas) && SamePayloads(m, m, Live(h))
  {
  }

  lemma HeadersTrans(m: Mem, m1: Mem, m2: Mem, h: Heap, areas: seq<Area>)
    requires HeadersOnly(m, m1, h, areas) && HeadersOnly(m1, m2, h, areas)
    ensures HeadersOnly(m, m2, h, areas)
  {
  }

  /** Fewer chunks have fewer headers. */
  lemma HeadersWiden(m: Mem, m': Mem, h: Heap, h': Heap, areas: seq<Area>)
    requires HeadersOnly(m, m', h', areas) && h'.Keys <= h.Keys
    ensures HeadersOnly(m, m', h, areas)
  {
    forall a | HeaderWord(h', areas, a) ensures HeaderWord(h, areas, a) {
      var x :| HeaderAt(h', areas, x) && x <= a < x + HEADER;
      assert HeaderAt(h, areas, x);
    }
  }

  lemma PayloadOutside(h: Heap, areas: seq<Area>, d: int, a: int)
    requires Tiled(h, areas) && d in h && d + HEADER <= a < d + h[d].size
    ensures !HeaderWord(h, areas, a) && a >= 0
  {
    forall x | HeaderAt(h, areas, x) ensures a < x || a >= x + HEADER {
      PayloadMiss(h, areas, d, a, x);
    }
    PayloadMiss(h, areas, d, a, d);
  }

  lemma HeadersPayloads(m: Mem, m': Mem, h: Heap, areas: seq<Area>)
    requires Tiled(h, areas) && HeadersOnly(m, m', h, areas)
    ensures SamePayloads(m, m', Live(h))
  {
    forall c, a | c in Live(h) && c + HEADER <= a < c + Live(h)[c] ensures Rd(m', a) == Rd(m, a) {
      PayloadOutside(h, areas, c, a);
    }
  }

  lemma LinksKeepPayloads(m: Mem, m': Mem, h: Heap, areas: seq<Area>, keys: set<int>)
    requires Tiled(h, areas) && LinksOnly(m, m', keys) && keys <= h.Keys
    ensures SamePayloads(m, m', Live(h))
  {
    forall c, a | c in Live(h) && c + HEADER <= a < c + Live(h)[c] ensures Rd(m', a) == Rd(m, a) {
      if a in keys {
        PayloadMiss(h, areas, c, a, a);
      }
      if a - 8 in keys {
        PayloadMiss(h, areas, c, a, a - 8);
      }
      PayloadMiss(h, areas, c, a, c);
    }
  }

  lemma TagsKeepPayloads(m: Mem, h: Heap, areas: seq<Area>, c: int, e: int, used: bool)
    requires Tiled(h, areas) && c in h && c < e && Boundary(h, h[c].home, e)
    ensures SamePayloads(m, SetTags(m, c, e - c, used), Live(h))
  {
    assert ChunkOk(h, areas, c);
    forall d, a | d in Live(h) && d + HEADER <= a < d + Live(h)[d]
      ensures Rd(SetTags(m, c, e - c, used), a) == Rd(m, a)
    {
      PayloadMiss(h, areas, d, a, c);
      PayloadMiss(h, areas, d, a, e);
    }
  }

  lemma SamePayloadsTrans(m: Mem, m1: Mem, m2: Mem, live: map<int, int>)
    requires SamePayloads(m, m1, live) && SamePayloads(m1, m2, live)
    ensures SamePayloads(m, m2, live)
  {
  }

  // ----- tag writes leave the index alone

  lemma SetTagsIndex(m: Mem, blocks: seq<nat>, lists: Lists, f: Free, c: int, size: int, used: bool)
    requires IndexOk(m, blocks, lists, f) && c % 64 == 32 && size % 64 == 0 && c !in f
    ensures IndexOk(SetTags(m, c, size, used), blocks, lists, f)
  {
    hide ListsOk, SetTags, Slots, Distinct, Threaded;
    var m' := SetTags(m, c, size, used);
    SetTagsFrame(m, c, size, used);
    forall x | x in f ensures Tag(m', x) == f[x] {
      SlotIn(lists, f, x);
    }
    forall i | 0 <= i < NUM_BINS ensures Ring(m', BinAddr(i), lists[i]) {
      assert Ring(m, BinAddr(i), lists[i]);
      forall x | x == BinAddr(i) || x in lists[i] ensures Next(m', x) == Next(m, x) && Prev(m', x) == Prev(m, x) {
        if x in lists[i] {
          var k :| 0 <= k < |lists[i]| && lists[i][k] == x;
          Member(lists, f, i, k);
        }
        SetTagsLinks(m, c, size, used, x);
      }
      RingFrame(m, m', BinAddr(i), lists[i]);
    }
  }

  /** Tags are written beside links, never over them. */
  lemma SetTagsLinks(m: Mem, c: int, size: int, used: bool, x: int)
    requires c % 64 == 32 && size % 64 == 0 && x % 32 == 0
    ensures var m' := SetTags(m, c, size, used); Next(m', x) == Next(m, x) && Prev(m', x) == Prev(m, x)
  {
    SlotAt(c, size);
    Halves(c);
    Halves(c + size);
  }

  // ----- replacing a run of chunks by one

  /** The free chunks outside `[c, e)`. */
  ghost function FreeOutside(h: Heap, c: int, e: int): Free {
    map d | d in h && !h[d].used && !(c <= d < e) :: h[d].size
  }

  ghost function LiveOutside(h: Heap, c: int, e: int): map<int, int> {
    map d | d in h && h[d].used && !(c <= d < e) :: h[d].size
  }

  lemma FuseMaps(h: Heap, c: int, e: int, used: bool)
    requires c in h && c < e
    ensures FreeMap(Fuse(h, c, e, used)) == if used then FreeOutside(h, c, e) else FreeOutside(h, c, e)[c := e - c]
    ensures Live(Fuse(h, c, e, used)) == if used then LiveOutside(h, c, e)[c := e - c] else LiveOutside(h, c, e)
  {
  }

  lemma FuseStep(m: Mem, m1: Mem, blocks: seq<nat>, lists: Lists, h: Heap, areas: seq<Area>, c: int, e: int, used: bool)
    requires Tiled(h, areas) && Tagged(m, h, areas) && c in h && c < e && Boundary(h, h[c].home, e)
    requires LinksOnly(m, m1, FreeMap(h).Keys) && IndexOk(m1, blocks, lists, FreeOutside(h, c, e))
    ensures var m2, h' := SetTags(m1, c, e - c, used), Fuse(h, c, e, used);
      && Tiled(h', areas) && Tagged(m2, h', areas) && IndexOk(m2, blocks, lists, FreeOutside(h, c, e))
      && HeadersOnly(m, m2, h, areas)
  {
    hide *;
    FuseTags(m, m1, h, areas, c, e, used);
    FuseTiled(h, areas, c, e, used);
    FuseHeaders(m, m1, h, areas, c, e, used);
    FuseIndex(m1, blocks, lists, h, areas, c, e, used);
  }

  lemma FuseTagFrame(m: Mem, m1: Mem, m2: Mem, c: int, e: int)
    requires TagsSameBut(m, m1, {}, {}) && TagsSameBut(m1, m2, {c}, {e})
    ensures TagsSameBut(m, m2, {c}, {e})
  {
  }

  lemma FuseTags(m: Mem, m1: Mem, h: Heap, areas: seq<Area>, c: int, e: int, used: bool)
    requires Tiled(h, areas) && Tagged(m, h, areas) && c in h && c < e && Boundary(h, h[c].home, e)
    requires LinksOnly(m, m1, FreeMap(h).Keys)
    ensures Tagged(SetTags(m1, c, e - c, used), Fuse(h, c, e, used), areas)
  {
    hide *;
    FuseNumbers(h, areas, c, e);
    FreeKeysOk(h, areas);
    LinksKeepTags(m, m1, FreeMap(h).Keys);
    SetTagsFrame(m1, c, e - c, used);
    FuseTagFrame(m, m1, SetTags(m1, c, e - c, used), c, e);
    TaggedFuse(m, SetTags(m1, c, e - c, used), h, areas, c, e, used);
  }

  lemma FuseHeaders(m: Mem, m1: Mem, h: Heap, areas: seq<Area>, c: int, e: int, used: bool)
    requires Tiled(h, areas) && c in h && c < e && Boundary(h, h[c].home, e)
    requires LinksOnly(m, m1, FreeMap(h).Keys)
    ensures HeadersOnly(m, SetTags(m1, c, e - c, used), h, areas)
  {
    hide *;
    FreeKeysOk(h, areas);
    LinksHeaders(m, m1, h, areas, FreeMap(h).Keys);
    TagsHeaders(m1, h, areas, c, e, used);
    HeadersTrans(m, m1, SetTags(m1, c, e - c, used), h, areas);
  }

  lemma FuseIndex(m1: Mem, blocks: seq<nat>, lists: Lists, h: Heap, areas: seq<Area>, c: int, e: int, used: bool)
    requires Tiled(h, areas) && c in h && c < e && Boundary(h, h[c].home, e)
    requires IndexOk(m1, blocks, lists, FreeOutside(h, c, e))
    ensures IndexOk(SetTags(m1, c, e - c, used), blocks, lists, FreeOutside(h, c, e))
  {
    hide *;
    FuseNumbers(h, areas, c, e);
    SetTagsIndex(m1, blocks, lists, FreeOutside(h, c, e), c, e - c, used);
  }

  lemma FuseNumbers(h: Heap, areas: seq<Area>, c: int, e: int)
    requires Tiled(h, areas) && c in h && c < e && Boundary(h, h[c].home, e)
    ensures c > 0 && c % 64 == 32 && e % 64 == 32 && (e - c) % 64 == 0 && c !in FreeOutside(h, c, e)
  {
    hide Tiled, Boundary;
    BoundaryAfter(h, areas, c, e);
    ChunkSlots(h, areas, c);
    Gap(c, e);
  }

  lemma FreeKeysOk(h: Heap, areas: seq<Area>)
    requires Tiled(h, areas)
    ensures FreeOk(FreeMap(h)) && forall x :: x in FreeMap(h).Keys ==> x % 64 == 32
    ensures FreeMap(h).Keys <= h.Keys
  {
    forall x | x in FreeMap(h) ensures SlotOk(x, h[x].size) {
      assert ChunkOk(h, areas, x);
    }
  }

  // ----- taking the front of a free chunk

  lemma FuseUsedCoalesced(h: Heap, c: int, e: int)
    requires Coalesced(h) && c in h
    ensures Coalesced(Fuse(h, c, e, true))
  {
  }

  /** A freed run stays apart from free chunks if both its neighbours are in use. */
  lemma FuseFreeCoalesced(h: Heap, c: int, e: int)
    requires Coalesced(h) && c in h && c < e
    requires e in h ==> h[e].used
    requires forall p :: p in h && p + h[p].size == c ==> h[p].used
    ensures Coalesced(Fuse(h, c, e, false))
  {
  }

  lemma SplitCoalesced(h: Heap, c: int, s: int, restUsed: bool)
    requires Coalesced(h) && c in h && s > 0
    requires restUsed || (c + h[c].size in h ==> h[c + h[c].size].used)
    requires h[c].size > s
    requires forall d :: d in h && d != c ==> d + h[d].size != c + s
    ensures Coalesced(Split(h, c, s, true, restUsed))
  {
  }

  lemma SplitMaps(h: Heap, c: int, s: int, restUsed: bool)
    requires c in h && c + s !in h && s > 0
    ensures FreeMap(Split(h, c, s, true, restUsed)) ==
      if restUsed then FreeMap(h) - {c} else (FreeMap(h) - {c})[c + s := h[c].size - s]
    ensures Live(Split(h, c, s, true, restUsed)) ==
      if restUsed then Live(h)[c := s][c + s := h[c].size - s] else Live(h)[c := s]
  {
  }

  lemma SamePayloadsSub(m: Mem, m': Mem, live: map<int, int>, sub: map<int, int>)
    requires SamePayloads(m, m', live)
    requires forall c :: c in sub ==> c in live && live[c] == sub[c]
    ensures SamePayloads(m, m', sub)
  {
  }

  ghost predicate FreeSplit(h: Heap, areas: seq<Area>, c: int, s: int) {
    Tiled(h, areas) && CanSplit(h, c, s) && !h[c].used
  }

  lemma SplitFacts(h: Heap, areas: seq<Area>, c: int, s: int)
    requires FreeSplit(h, areas, c, s)
    ensures Tiled(h, areas) && CanSplit(h, c, s)
    ensures c in h && 0 < c < c + s < c + h[c].size && c % 64 == 32 && s % 64 == 0 && h[c].size % 64 == 0
    ensures var h' := Split(h, c, s, true, false);
      && c in h' && c + s in h' && c + s !in h && h'[c].home == h'[c + s].home == h[c].home
      && Tiled(h', areas) && Boundary(h', h[c].home, c + s) && Boundary(h', h[c].home, c + h[c].size)
  {
    SplitTiled(h, areas, c, s, true, false);
    assert ChunkOk(h, areas, c);
    assert ChunkOk(Split(h, c, s, true, false), areas, c + s);
  }

  lemma RemainderSlot(m1: Mem, blocks: seq<nat>, lists: Lists, h: Heap, areas: seq<Area>, c: int, s: int)
    requires FreeSplit(h, areas, c, s) && IndexOk(m1, blocks, lists, FreeMap(h) - {c})
    ensures var m2 := SetTags(m1, c + s, h[c].size - s, false);
      && c + s !in h && c + s !in FreeMap(h) && IndexOk(m2, blocks, lists, FreeMap(h) - {c})
      && Tag(m2, c + s) == h[c].size - s && SlotOk(c + s, h[c].size - s)
  {
    hide Tiled, IndexOk, Split, Boundary, FreeOutside, LiveOutside;
    SplitFacts(h, areas, c, s);
    WholeChunk(h, areas, c);
    SlotAt(c, s);
    SetTagsFrame(m1, c + s, h[c].size - s, false);
    SetTagsIndex(m1, blocks, lists, FreeMap(h) - {c}, c + s, h[c].size - s, false);
  }

  lemma SplitTagFrame(m: Mem, m1: Mem, m2: Mem, m3: Mem, m4: Mem, c: int, r: int, e: int)
    requires TagsSameBut(m, m1, {}, {}) && TagsSameBut(m1, m2, {r}, {e})
    requires TagsSameBut(m2, m3, {}, {}) && TagsSameBut(m3, m4, {c}, {r})
    requires 0 < c < r < e && c % 64 == 32 && r % 64 == 32 && e % 64 == 32
    ensures TagsSameBut(m, m4, {c, r}, {r, e})
    ensures Tag(m4, r) == Tag(m2, r) && PrevTag(m4, e) == PrevTag(m2, e)
  {
  }

  lemma SplitTags(m: Mem, m1: Mem, m3: Mem, h: Heap, areas: seq<Area>, c: int, s: int, keys: set<int>)
    requires FreeSplit(h, areas, c, s) && Tagged(m, h, areas) && LinksOnly(m, m1, FreeMap(h).Keys)
    requires LinksOnly(SetTags(m1, c + s, h[c].size - s, false), m3, keys)
    requires forall x :: x in keys ==> x % 64 == 32
    ensures Tagged(SetTags(m3, c, s, true), Split(h, c, s, true, false), areas)
  {
    hide *;
    SplitFacts(h, areas, c, s);
    FreeKeysOk(h, areas);
    var rest := h[c].size - s;
    var m2 := SetTags(m1, c + s, rest, false);
    var m4 := SetTags(m3, c, s, true);
    LinksKeepTags(m, m1, FreeMap(h).Keys);
    SlotAt(c, s);
    SlotAt(c, h[c].size);
    Gap(c + s, c + h[c].size);
    SetTagsFrame(m1, c + s, rest, false);
    LinksKeepTags(m2, m3, keys);
    SetTagsFrame(m3, c, s, true);
    SplitTagFrame(m, m1, m2, m3, m4, c, c + s, c + h[c].size);
    TaggedSplit(m, m4, h, areas, c, s, true, false);
  }

  lemma SplitLive(h: Heap, c: int, s: int)
    requires c in h && !h[c].used && c + s !in h
    ensures var h' := Split(h, c, s, true, false);
      && (forall d :: d in Live(h) ==> d in Live(h') && Live(h')[d] == Live(h)[d])
      && FreeMap(h).Keys <= h.Keys && h'.Keys == h.Keys + {c + s}
  {
  }

  lemma SplitPayloads(m: Mem, m1: Mem, m3: Mem, h: Heap, areas: seq<Area>, c: int, s: int, keys: set<int>)
    requires FreeSplit(h, areas, c, s) && LinksOnly(m, m1, FreeMap(h).Keys)
    requires LinksOnly(SetTags(m1, c + s, h[c].size - s, false), m3, keys) && keys <= h.Keys + {c + s}
    ensures SamePayloads(m, SetTags(m3, c, s, true), Live(h))
  {
    hide Tiled, LinksOnly, SamePayloads, SetTags, Split, Boundary, Live, FreeMap;
    var h' := Split(h, c, s, true, false);
    SplitFacts(h, areas, c, s);
    SplitLive(h, c, s);
    var m2 := SetTags(m1, c + s, h[c].size - s, false);
    LinksKeepPayloads(m, m1, h, areas, FreeMap(h).Keys);
    TagsKeepPayloads(m1, h', areas, c + s, c + h[c].size, false);
    LinksKeepPayloads(m2, m3, h', areas, keys);
    TagsKeepPayloads(m3, h', areas, c, c + s, true);
    SamePayloadsTrans(m2, m3, SetTags(m3, c, s, true), Live(h'));
    SamePayloadsTrans(m1, m2, SetTags(m3, c, s, true), Live(h'));
    SamePayloadsSub(m1, SetTags(m3, c, s, true), Live(h'), Live(h));
    SamePayloadsTrans(m, m1, SetTags(m3, c, s, true), Live(h));
  }

  // ----- states between the steps of an operation

  lemma TaggedLinks(m: Mem, m': Mem, h: Heap, areas: seq<Area>)
    requires Tiled(h, areas) && Tagged(m, h, areas) && TagsSameBut(m, m', {}, {})
    ensures Tagged(m', h, areas)
  {
    hide Tiled;
    forall c | c in h ensures ChunkTagged(m', h, c) {
      ChunkSlots(h, areas, c);
      assert ChunkTagged(m, h, c);
    }
    forall a | a in areas ensures Marked(m', a) {
      MarkerSlots(h, areas, a);
      assert Marked(m, a);
    }
  }

  lemma ChunkSlots(h: Heap, areas: seq<Area>, c: int)
    requires Tiled(h, areas) && c in h
    ensures c > 0 && c % 64 == 32 && c + h[c].size > 0 && (c + h[c].size) % 64 == 32
  {
    assert ChunkOk(h, areas, c);
    SlotAt(c, h[c].size);
  }

  lemma MarkerSlots(h: Heap, areas: seq<Area>, a: Area)
    requires Tiled(h, areas) && a in areas
    ensures a.First() > 0 && a.First() % 64 == 32 && a.End() > 0 && a.End() % 64 == 32
  {
    assert AreaOk(a);
    SlotAt(a.First(), a.size);
  }

  // ----- a new area

  /** The area header is aligned within the block the callback returned. */
  function AlignUp(ptr: nat): (r: nat)
    ensures r % ALIGN == 0 && ptr <= r < ptr + ALIGN
  {
    (ptr + (ALIGN - 1)) - (ptr + (ALIGN - 1)) % ALIGN
  }

  /** A block of `size + kAreaOverhead` bytes at `ptr` that overlaps no area. */
  ghost predicate FreshBlock(areas: seq<Area>, ptr: int, size: int) {
    && ptr > 0
    && forall a :: a in areas ==> a.End() + HEADER <= ptr || ptr + size + AREA_OVERHEAD <= a.base
  }

  /** SetNeighborsInUse and SetSizeFree on the first chunk of an area. */
  function MarkArea(m: Mem, a: Area): Mem {
    SetTags(m[a.End() + 24 := 1][a.First() + 16 := 1], a.First(), a.size, false)
  }

  ghost predicate CanAdd(areas: seq<Area>, a: Area) {
    AreaOk(a) && forall b :: b in areas ==> Apart(a, b)
  }

  lemma FreshArea(areas: seq<Area>, ptr: nat, size: int)
    requires FreshBlock(areas, ptr, size) && size % 64 == 0 && MIN_ALLOC <= size < MAX_SIZE
    ensures CanAdd(areas, Area(AlignUp(ptr), size))
  {
  }

  lemma AddAreaOutside(h: Heap, areas: seq<Area>, a: Area, c: int)
    requires Tiled(h, areas) && CanAdd(areas, a) && c in h
    ensures c + h[c].size <= a.base || a.End() + HEADER <= c
    ensures c != a.First() && h[c].size > 0
  {
    assert ChunkOk(h, areas, c);
    assert Apart(a, h[c].home);
  }

  lemma AddAreaChunkOk(h: Heap, areas: seq<Area>, a: Area, c: int)
    requires Tiled(h, areas) && CanAdd(areas, a) && (c in h || c == a.First())
    ensures ChunkOk(h[a.First() := Chunk(a.size, false, a)], [a] + areas, c)
  {
    if c in h {
      var h' := h[a.First() := Chunk(a.size, false, a)];
      assert ChunkOk(h, areas, c);
      AddAreaOutside(h, areas, a, c);
      if a.First() in h {
        AddAreaOutside(h, areas, a, a.First());
      }
      if c != h[c].home.First() {
        var p :| Abuts(h, p, c);
        AddAreaOutside(h, areas, a, p);
        assert Abuts(h', p, c);
      }
    }
  }

  lemma AddAreaTiled(h: Heap, areas: seq<Area>, a: Area)
    requires Tiled(h, areas) && CanAdd(areas, a)
    ensures Tiled(h[a.First() := Chunk(a.size, false, a)], [a] + areas)
  {
    var h', areas' := h[a.First() := Chunk(a.size, false, a)], [a] + areas;
    forall c | c in h' ensures ChunkOk(h', areas', c) {
      AddAreaChunkOk(h, areas, a, c);
    }
    forall c | c in h ensures h[c].size > 0 && (c + h[c].size <= a.base || a.End() + HEADER <= c) {
      AddAreaOutside(h, areas, a, c);
    }
    forall b | b in areas' ensures b.First() in h' && h'[b.First()].home == b {
      if b != a {
        assert b in areas;
        AddAreaOutside(h, areas, a, b.First());
      }
    }
    AddAreaDisjoint(h, a);
    hide FirstsOk, ChunkOk, ChunksOk, Disjoint;
  }

  lemma AddAreaDisjoint(h: Heap, a: Area)
    requires Disjoint(h) && a.size > 0
    requires forall c :: c in h ==> h[c].size > 0 && (c + h[c].size <= a.base || a.End() + HEADER <= c)
    ensures Disjoint(h[a.First() := Chunk(a.size, false, a)])
  {
  }

  lemma AddAreaTagged(m: Mem, h: Heap, areas: seq<Area>, a: Area)
    requires Tiled(h, areas) && Tagged(m, h, areas) && CanAdd(areas, a)
    ensures Tagged(MarkArea(m, a), h[a.First() := Chunk(a.size, false, a)], [a] + areas)
  {
    var m', h' := MarkArea(m, a), h[a.First() := Chunk(a.size, false, a)];
    AddAreaTiled(h, areas, a);
    forall c | c in h' ensures ChunkTagged(m', h', c) {
      if c != a.First() {
        assert ChunkOk(h, areas, c) && ChunkTagged(m, h, c);
        assert Apart(a, h[c].home);
      }
    }
    forall b | b in [a] + areas ensures Marked(m', b) {
      if b != a {
        assert b in areas && Marked(m, b) && Apart(a, b) && AreaOk(b);
      }
    }
    hide Tiled;
  }

  lemma AddAreaPayloads(m: Mem, h: Heap, areas: seq<Area>, a: Area)
    requires Tiled(h, areas) && CanAdd(areas, a)
    ensures SamePayloads(m, MarkArea(m, a), Live(h))
  {
    forall c, x | c in Live(h) && c + HEADER <= x < c + Live(h)[c] ensures Rd(MarkArea(m, a), x) == Rd(m, x) {
      assert ChunkOk(h, areas, c);
      assert Apart(a, h[c].home);
    }
  }

  /** A new area touches no node of the index. */
  lemma AddAreaIndex(m: Mem, blocks: seq<nat>, lists: Lists, h: Heap, areas: seq<Area>, a: Area)
    requires Tiled(h, areas) && CanAdd(areas, a) && IndexOk(m, blocks, lists, FreeMap(h))
    ensures IndexOk(MarkArea(m, a), blocks, lists, FreeMap(h))
  {
    var m', f := MarkArea(m, a), FreeMap(h);
    forall x | x in f ensures Rd(m', x) == Rd(m, x) && Rd(m', x + 8) == Rd(m, x + 8) && Tag(m', x) == Tag(m, x) {
      assert ChunkOk(h, areas, x);
      assert Apart(a, h[x].home);
    }
    forall i | 0 <= i < NUM_BINS ensures Ring(m', BinAddr(i), lists[i]) {
      assert Ring(m, BinAddr(i), lists[i]);
      forall x | x == BinAddr(i) || x in lists[i] ensures Next(m', x) == Next(m, x) && Prev(m', x) == Prev(m, x) {
        if x in lists[i] {
          assert x in f;
        }
      }
      RingFrame(m, m', BinAddr(i), lists[i]);
    }
    hide ListsOk, Ring, Tiled, MarkArea;
  }

  // ----- a chunk taken off the index, not yet tagged

  ghost predicate PoolOk(m: Mem, blocks: seq<nat>, areas: seq<Area>, h: Heap, f: Free, lists: Lists) {
    Tiled(h, areas) && Coalesced(h) && Tagged(m, h, areas) && f == FreeMap(h) && IndexOk(m, blocks, lists, f)
  }

  /** The pool is well formed except that free chunk `c` is not in the index. */
  ghost predicate DetachedOk(m: Mem, blocks: seq<nat>, areas: seq<Area>, h: Heap, f: Free, lists: Lists, c: int) {
    && Tiled(h, areas) && Coalesced(h) && Tagged(m, h, areas) && c in h && !h[c].used
    && f == FreeMap(h) - {c} && IndexOk(m, blocks, lists, f)
  }

  lemma DetachStep(m: Mem, m1: Mem, blocks: seq<nat>, areas: seq<Area>, h: Heap, f: Free, lists: Lists, c: int)
    requires Tiled(h, areas) && Coalesced(h) && Tagged(m, h, areas) && c in FreeMap(h)
    requires LinksOnly(m, m1, FreeMap(h).Keys) && f == FreeMap(h) - {c} && IndexOk(m1, blocks, lists, f)
    ensures DetachedOk(m1, blocks, areas, h, f, lists, c)
    ensures SamePayloads(m, m1, Live(h))
  {
    FreeKeysOk(h, areas);
    LinksKeepTags(m, m1, FreeMap(h).Keys);
    TaggedLinks(m, m1, h, areas);
    LinksKeepPayloads(m, m1, h, areas, FreeMap(h).Keys);
    hide Tiled, Tagged, IndexOk, SamePayloads;
  }

  lemma AddAreaDetached(m: Mem, blocks: seq<nat>, areas: seq<Area>, h: Heap, f: Free, lists: Lists, a: Area)
    requires PoolOk(m, blocks, areas, h, f, lists) && CanAdd(areas, a)
    ensures a.First() !in h
    ensures
      var h' := h[a.First() := Chunk(a.size, false, a)];
      DetachedOk(MarkArea(m, a), blocks, [a] + areas, h', f, lists, a.First())
    ensures SamePayloads(m, MarkArea(m, a), Live(h))
    ensures Live(h[a.First() := Chunk(a.size, false, a)]) == Live(h)
  {
    hide Tiled, Tagged, IndexOk, SamePayloads, MarkArea, Coalesced, FreeMap, Live;
    AddAreaNew(h, areas, a);
    AddAreaTiled(h, areas, a);
    AddAreaTagged(m, h, areas, a);
    AddAreaIndex(m, blocks, lists, h, areas, a);
    AddAreaPayloads(m, h, areas, a);
    AddAreaCoalesced(h, areas, a);
    AddFreeChunk(h, a.First(), Chunk(a.size, false, a));
  }

  lemma AddAreaNew(h: Heap, areas: seq<Area>, a: Area)
    requires Tiled(h, areas) && CanAdd(areas, a)
    ensures a.First() !in h
  {
    hide Tiled;
    if a.First() in h {
      AddAreaOutside(h, areas, a, a.First());
    }
  }

  lemma AddFreeChunk(h: Heap, c: int, k: Chunk)
    requires c !in h && !k.used
    ensures FreeMap(h[c := k]) - {c} == FreeMap(h) && Live(h[c := k]) == Live(h)
  {
  }

  lemma AddAreaCoalesced(h: Heap, areas: seq<Area>, a: Area)
    requires Tiled(h, areas) && Coalesced(h) && CanAdd(areas, a)
    ensures Coalesced(h[a.First() := Chunk(a.size, false, a)])
  {
    var h' := h[a.First() := Chunk(a.size, false, a)];
    forall c | c in h' && !h'[c].used && c + h'[c].size in h' ensures h'[c + h'[c].size].used {
      if c in h {
        AddAreaOutside(h, areas, a, c);
      }
      if a.End() in h {
        AddAreaOutside(h, areas, a, a.End());
      }
    }
  }

  /** Tagging a detached chunk as in use puts the pool back in order. */
  lemma TakeStep(m: Mem, blocks: seq<nat>, areas: seq<Area>, h: Heap, f: Free, lists: Lists, c: int)
    requires DetachedOk(m, blocks, areas, h, f, lists, c)
    ensures var h' := Fuse(h, c, c + h[c].size, true);
      && PoolOk(SetTags(m, c, h[c].size, true), blocks, areas, h', f, lists)
      && Live(h') == Live(h)[c := h[c].size] && FreeMap(h') == f && c !in Live(h)
    ensures SamePayloads(m, SetTags(m, c, h[c].size, true), Live(h))
  {
    hide Tiled, Tagged, IndexOk, SamePayloads, Coalesced, Fuse, SetTags, FreeMap, Live, HeadersOnly, LinksOnly;
    var e := c + h[c].size;
    TakeMaps(h, areas, c);
    WholeChunk(h, areas, c);
    FuseUsedCoalesced(h, c, e);
    LinksSame(m, FreeMap(h).Keys);
    FuseStep(m, m, blocks, lists, h, areas, c, e, true);
    HeadersPayloads(m, SetTags(m, c, h[c].size, true), h, areas);
  }

  lemma LinksSame(m: Mem, keys: set<int>)
    ensures LinksOnly(m, m, keys)
  {
  }

  lemma FreeNotLive(h: Heap, c: int)
    requires c in h && !h[c].used
    ensures c !in Live(h) && c in FreeMap(h)
  {
  }

  lemma TakeMaps(h: Heap, areas: seq<Area>, c: int)
    requires Tiled(h, areas) && c in h && !h[c].used
    ensures var h' := Fuse(h, c, c + h[c].size, true);
      FreeMap(h') == FreeMap(h) - {c} && Live(h') == Live(h)[c := h[c].size] && c !in Live(h)
  {
    hide Fuse, FreeMap, Live, FreeOutside, LiveOutside, Tiled;
    FreeNotLive(h, c);
    WholeChunk(h, areas, c);
    FuseMaps(h, c, c + h[c].size, true);
    Reput(Live(h), c, h[c].size);
  }

  lemma Reput(m: map<int, int>, c: int, s: int)
    ensures (m - {c})[c := s] == m[c := s]
  {
  }

  lemma WholeChunk(h: Heap, areas: seq<Area>, c: int)
    requires Tiled(h, areas) && c in h
    ensures c > 0 && h[c].size >= MIN_ALLOC && c % 64 == 32 && h[c].size % 64 == 0
    ensures Boundary(h, h[c].home, c + h[c].size)
    ensures FreeOutside(h, c, c + h[c].size) == FreeMap(h) - {c}
    ensures LiveOutside(h, c, c + h[c].size) == Live(h) - {c}
    ensures h[c].size < MAX_SIZE
  {
    assert ChunkOk(h, areas, c);
  }

  lemma CarveStep(m: Mem, m3: Mem, blocks: seq<nat>, areas: seq<Area>, h: Heap, f: Free, lists: Lists, c: int, s: int)
    requires Tiled(h, areas) && Coalesced(h) && Tagged(m, h, areas) && CanSplit(h, c, s) && !h[c].used
    requires LinksOnly(SetTags(m, c + s, h[c].size - s, false), m3, (FreeMap(h) - {c}).Keys + {c + s})
    requires f == (FreeMap(h) - {c})[c + s := h[c].size - s] && IndexOk(m3, blocks, lists, f)
    ensures PoolOk(SetTags(m3, c, s, true), blocks, areas, Split(h, c, s, true, false), f, lists)
    ensures Live(Split(h, c, s, true, false)) == Live(h)[c := s] && c !in Live(h)
    ensures SamePayloads(m, SetTags(m3, c, s, true), Live(h))
  {
    hide Tiled, Tagged, IndexOk, SamePayloads, Coalesced, Split, SetTags, LinksOnly, FreeMap, Live, Boundary;
    var keys := (FreeMap(h) - {c}).Keys + {c + s};
    SplitFacts(h, areas, c, s);
    CarveKeys(h, areas, c, s);
    FreeNotLive(h, c);
    SplitMaps(h, c, s, false);
    CarveCoalesced(h, areas, c, s);
    LinksSame(m, FreeMap(h).Keys);
    SplitTags(m, m, m3, h, areas, c, s, keys);
    SplitPayloads(m, m, m3, h, areas, c, s, keys);
    SetTagsIndex(m3, blocks, lists, f, c, s, true);
  }

  lemma CarveKeys(h: Heap, areas: seq<Area>, c: int, s: int)
    requires Tiled(h, areas) && c in h && c % 64 == 32 && s % 64 == 0
    ensures var keys := (FreeMap(h) - {c}).Keys + {c + s};
      keys <= h.Keys + {c + s} && forall x :: x in keys ==> x % 64 == 32
  {
    hide Tiled;
    SlotAt(c, s);
    FreeKeysOk(h, areas);
  }

  lemma CarveCoalesced(h: Heap, areas: seq<Area>, c: int, s: int)
    requires Tiled(h, areas) && Coalesced(h) && CanSplit(h, c, s) && !h[c].used
    ensures Coalesced(Split(h, c, s, true, false))
  {
    forall d | d in h && d != c ensures d + h[d].size != c + s {
      SplitMiss(h, areas, c, s, d);
    }
    SplitCoalesced(h, c, s, false);
  }

  /** Reading the size of a free chunk from its tag. */
  lemma ReadFree(m: Mem, h: Heap, areas: seq<Area>, c: int)
    requires Tiled(h, areas) && Tagged(m, h, areas) && c in h && !h[c].used
    ensures SizeOf(Tag(m, c)) == Tag(m, c) == h[c].size && MIN_ALLOC <= h[c].size < MAX_SIZE
    ensures c % 64 == 32 && h[c].size % 64 == 0 && c > 0
  {
    hide Tiled, SizeOf, FreeOutside, LiveOutside, Boundary;
    WholeChunk(h, areas, c);
    assert ChunkTagged(m, h, c);
    TagsOf(m, h, areas, c);
  }

  // ----- a run of chunks being put together

  /** The pool is well formed except that the chunks of `[s, e)` are not in the index. */
  ghost predicate RegionOk(m: Mem, blocks: seq<nat>, areas: seq<Area>, h: Heap, f: Free, lists: Lists, s: int, e: int) {
    && Tiled(h, areas) && Coalesced(h) && Tagged(m, h, areas)
    && s in h && s < e && Boundary(h, h[s].home, e)
    && f == FreeOutside(h, s, e) && IndexOk(m, blocks, lists, f)
  }

  lemma UsedRegion(m: Mem, blocks: seq<nat>, areas: seq<Area>, h: Heap, f: Free, lists: Lists, c: int)
    requires PoolOk(m, blocks, areas, h, f, lists) && c in h && h[c].used
    ensures RegionOk(m, blocks, areas, h, f, lists, c, c + h[c].size)
    ensures Tag(m, c) == h[c].size + 1 && SizeOf(Tag(m, c)) == h[c].size
  {
    hide IndexOk, Coalesced, Boundary, SizeOf, FreeOutside;
    WholeChunk(h, areas, c);
    TagsOf(m, h, areas, c);
    assert ChunkTagged(m, h, c);
    assert FreeMap(h) - {c} == FreeMap(h);
  }

  /** Chunk `x` is free and lies right before or right after `[s, e)`; `[s', e')` takes it in. */
  ghost predicate Grows(h: Heap, s: int, e: int, x: int, s': int, e': int) {
    && s in h && x in h && !h[x].used && h[x].home == h[s].home
    && ((x == s' && x + h[x].size == s && e' == e) || (x == e && s' == s && e' == e + h[x].size))
  }

  lemma GrowRegion(h: Heap, areas: seq<Area>, s: int, e: int, x: int, s': int, e': int)
    requires Tiled(h, areas) && s in h && s < e && Boundary(h, h[s].home, e) && Grows(h, s, e, x, s', e')
    ensures s' in h && s' < e' && Boundary(h, h[s'].home, e')
    ensures FreeOutside(h, s', e') == FreeOutside(h, s, e) - {x} && x in FreeOutside(h, s, e)
  {
    assert ChunkOk(h, areas, x);
    assert ChunkOk(h, areas, s);
  }

  /** Only `c` is in use among the chunks of `[s, e)`. */
  ghost predicate OnlyUsed(h: Heap, s: int, e: int, c: int) {
    s <= c < e && c in h && h[c].used && forall d :: d in h && s <= d < e && d != c ==> !h[d].used
  }

  lemma GrowKeepsOnly(h: Heap, areas: seq<Area>, s: int, e: int, x: int, s': int, e': int, c: int)
    requires Tiled(h, areas) && s in h && s < e && Boundary(h, h[s].home, e) && Grows(h, s, e, x, s', e')
    requires OnlyUsed(h, s, e, c)
    ensures OnlyUsed(h, s', e', c)
  {
    assert ChunkOk(h, areas, x);
  }

  lemma OnlyUsedLive(h: Heap, s: int, e: int, c: int)
    requires OnlyUsed(h, s, e, c)
    ensures LiveOutside(h, s, e) == Live(h) - {c} && c in Live(h)
  {
  }

  lemma OnlyUsedSelf(h: Heap, areas: seq<Area>, c: int)
    requires Tiled(h, areas) && c in h && h[c].used
    ensures OnlyUsed(h, c, c + h[c].size, c)
  {
    assert ChunkOk(h, areas, c);
  }

  lemma AbsorbStep(m: Mem, m1: Mem, blocks: seq<nat>, areas: seq<Area>, h: Heap, lists: Lists,
                   s: int, e: int, x: int, s': int, e': int)
    requires Tiled(h, areas) && Coalesced(h) && Tagged(m, h, areas) && s in h && s < e && Boundary(h, h[s].home, e)
    requires Grows(h, s, e, x, s', e')
    requires LinksOnly(m, m1, FreeOutside(h, s, e).Keys) && IndexOk(m1, blocks, lists, FreeOutside(h, s, e) - {x})
    ensures RegionOk(m1, blocks, areas, h, FreeOutside(h, s, e) - {x}, lists, s', e')
    ensures HeadersOnly(m, m1, h, areas)
  {
    hide Tiled, Tagged, Coalesced, IndexOk, LinksOnly, HeadersOnly, FreeOutside, FreeMap, Live, Boundary, Grows,
      TagsSameBut;
    OutsideKeys(h, areas, s, e);
    GrowRegion(h, areas, s, e, x, s', e');
    LinksKeepTags(m, m1, FreeOutside(h, s, e).Keys);
    TaggedLinks(m, m1, h, areas);
    LinksHeaders(m, m1, h, areas, FreeOutside(h, s, e).Keys);
  }

  lemma OutsideKeys(h: Heap, areas: seq<Area>, s: int, e: int)
    requires Tiled(h, areas)
    ensures FreeOutside(h, s, e).Keys <= h.Keys && forall x :: x in FreeOutside(h, s, e).Keys ==> x % 64 == 32
  {
    FreeKeysOk(h, areas);
    assert FreeOutside(h, s, e).Keys <= FreeMap(h).Keys;
  }

  lemma TagsOf(m: Mem, h: Heap, areas: seq<Area>, d: int)
    requires Tiled(h, areas) && Tagged(m, h, areas) && d in h
    ensures SizeOf(Tag(m, d)) == h[d].size && (InUseBit(Tag(m, d)) <==> h[d].used)
    ensures PrevTag(m, d + h[d].size) == Tag(m, d) != 1
  {
    assert ChunkOk(h, areas, d) && ChunkTagged(m, h, d);
    Halves(h[d].size);
  }

  lemma MarkerWord()
    ensures SizeOf(1) == 0 && InUseBit(1)
  {
  }

  lemma Predecessor(h: Heap, areas: seq<Area>, c: int) returns (p: int)
    requires Tiled(h, areas) && c in h && c != h[c].home.First()
    ensures Abuts(h, p, c)
  {
    assert ChunkOk(h, areas, c);
    p :| Abuts(h, p, c);
  }

  lemma FirstMark(m: Mem, h: Heap, areas: seq<Area>, c: int)
    requires Tiled(h, areas) && Tagged(m, h, areas) && c in h && c == h[c].home.First()
    ensures PrevTag(m, c) == 1
  {
    assert ChunkOk(h, areas, c) && Marked(m, h[c].home);
  }

  /** What the previous-size tag of a chunk says about its predecessor. */
  lemma ReadPrev(m: Mem, h: Heap, areas: seq<Area>, c: int)
    requires Tiled(h, areas) && Tagged(m, h, areas) && c in h
    ensures InUseBit(PrevTag(m, c)) ==> forall p :: p in h && p + h[p].size == c ==> h[p].used
    ensures !InUseBit(PrevTag(m, c)) ==>
      var p := c - SizeOf(PrevTag(m, c)); p in h && !h[p].used && p + h[p].size == c && h[p].home == h[c].home
    ensures PrevTag(m, c) == 1 <==> c == h[c].home.First()
  {
    hide Tiled, Tagged, SizeOf, InUseBit;
    MarkerWord();
    forall p | p in h && p + h[p].size == c ensures InUseBit(PrevTag(m, c)) <==> h[p].used {
      TagsOf(m, h, areas, p);
    }
    if c == h[c].home.First() {
      FirstMark(m, h, areas, c);
    } else {
      var p := Predecessor(h, areas, c);
      TagsOf(m, h, areas, p);
    }
  }

  lemma ChunkSize(h: Heap, areas: seq<Area>, d: int)
    requires Tiled(h, areas) && d in h
    ensures h[d].size > 0
  {
    assert ChunkOk(h, areas, d);
  }

  /** What the size tag at the end of a run says about what follows it. */
  lemma ReadNext(m: Mem, h: Heap, areas: seq<Area>, a: Area, e: int)
    requires Tiled(h, areas) && Tagged(m, h, areas) && a in areas && Boundary(h, a, e)
    ensures InUseBit(Tag(m, e)) ==> (e in h ==> h[e].used)
    ensures !InUseBit(Tag(m, e)) ==> e in h && !h[e].used && SizeOf(Tag(m, e)) == h[e].size && h[e].home == a
    ensures Tag(m, e) == 1 <==> e == a.End()
  {
    hide Tiled, SizeOf, InUseBit;
    MarkerWord();
    if e in h {
      TagsOf(m, h, areas, e);
      MarkersApart(h, areas, e, a);
      ChunkSize(h, areas, e);
    } else {
      assert Marked(m, a);
    }
  }

  lemma HomeInAreas(h: Heap, areas: seq<Area>, c: int)
    requires Tiled(h, areas) && c in h
    ensures h[c].home in areas && c > 0 && c % 64 == 32 && h[c].size % 64 == 0 && h[c].size >= MIN_ALLOC
  {
    assert ChunkOk(h, areas, c);
  }

  /** Neighbours of a free chunk are in use. */
  lemma NeighboursUsed(h: Heap, areas: seq<Area>, x: int)
    requires Tiled(h, areas) && Coalesced(h) && x in h && !h[x].used
    ensures forall p :: p in h && p + h[p].size == x ==> h[p].used
    ensures x + h[x].size in h ==> h[x + h[x].size].used
  {
  }

  /** Closing a run as one free chunk between used neighbours. */
  lemma CloseFree(m: Mem, blocks: seq<nat>, areas: seq<Area>, h: Heap, f: Free, lists: Lists, s: int, e: int)
    requires RegionOk(m, blocks, areas, h, f, lists, s, e)
    requires e in h ==> h[e].used
    requires forall p :: p in h && p + h[p].size == s ==> h[p].used
    ensures var h' := Fuse(h, s, e, false);
      && DetachedOk(SetTags(m, s, e - s, false), blocks, areas, h', f, lists, s)
      && h'[s] == Chunk(e - s, false, h[s].home)
      && Live(h') == LiveOutside(h, s, e)
    ensures HeadersOnly(m, SetTags(m, s, e - s, false), h, areas)
  {
    hide Tiled, Tagged, Coalesced, IndexOk, HeadersOnly, FreeOutside, LiveOutside, FreeMap, Live, Boundary, SetTags,
      LinksOnly;
    FuseFreeCoalesced(h, s, e);
    CloseMaps(h, s, e);
    LinksSame(m, FreeMap(h).Keys);
    FuseStep(m, m, blocks, lists, h, areas, s, e, false);
  }

  lemma CloseMaps(h: Heap, s: int, e: int)
    requires s in h && s < e
    ensures Live(Fuse(h, s, e, false)) == LiveOutside(h, s, e)
    ensures FreeMap(Fuse(h, s, e, false)) - {s} == FreeOutside(h, s, e)
    ensures Live(Fuse(h, s, e, true)) == LiveOutside(h, s, e)[s := e - s]
    ensures FreeMap(Fuse(h, s, e, true)) == FreeOutside(h, s, e)
  {
    FuseMaps(h, s, e, false);
    FuseMaps(h, s, e, true);
  }

  /** Closing a run as one chunk in use. */
  lemma CloseUsed(m: Mem, blocks: seq<nat>, areas: seq<Area>, h: Heap, f: Free, lists: Lists, s: int, e: int)
    requires RegionOk(m, blocks, areas, h, f, lists, s, e)
    ensures PoolOk(SetTags(m, s, e - s, true), blocks, areas, Fuse(h, s, e, true), f, lists)
    ensures Live(Fuse(h, s, e, true)) == LiveOutside(h, s, e)[s := e - s]
    ensures HeadersOnly(m, SetTags(m, s, e - s, true), h, areas)
  {
    hide Tiled, Tagged, Coalesced, IndexOk, HeadersOnly, FreeOutside, LiveOutside, FreeMap, Live, Boundary, SetTags,
      Fuse, LinksOnly;
    FuseUsedCoalesced(h, s, e);
    CloseMaps(h, s, e);
    LinksSame(m, FreeMap(h).Keys);
    FuseStep(m, m, blocks, lists, h, areas, s, e, true);
  }

  /** Indexing the detached chunk completes the pool. */
  lemma AttachStep(m: Mem, m1: Mem, blocks: seq<nat>, areas: seq<Area>, h: Heap, f1: Free, lists: Lists, c: int)
    requires Tiled(h, areas) && Coalesced(h) && Tagged(m, h, areas) && c in h && !h[c].used
    requires LinksOnly(m, m1, (FreeMap(h) - {c}).Keys + {c})
    requires f1 == (FreeMap(h) - {c})[c := h[c].size] && IndexOk(m1, blocks, lists, f1)
    ensures PoolOk(m1, blocks, areas, h, f1, lists)
    ensures HeadersOnly(m, m1, h, areas)
  {
    hide Tiled, Tagged, Coalesced, IndexOk, LinksOnly, HeadersOnly, FreeMap, Live, TagsSameBut;
    FreeKeysOk(h, areas);
    AttachMaps(h, c);
    var keys := (FreeMap(h) - {c}).Keys + {c};
    LinksKeepTags(m, m1, keys);
    TaggedLinks(m, m1, h, areas);
    LinksHeaders(m, m1, h, areas, keys);
  }

  lemma AttachMaps(h: Heap, c: int)
    requires c in h && !h[c].used
    ensures (FreeMap(h) - {c})[c := h[c].size] == FreeMap(h) && (FreeMap(h) - {c}).Keys + {c} == FreeMap(h).Keys
  {
  }

  // ----- giving an area back

  /** Block `c` is the last one in use in its area `a`. */
  ghost predicate LastIn(h: Heap, c: int, a: Area)
    requires c in h
  {
    h[c].home == a && forall d :: d in h && d != c && h[d].home == a ==> !h[d].used
  }

  /** A run that cannot grow covers its whole area exactly when nothing else is in use there. */
  lemma LastInIff(h: Heap, areas: seq<Area>, s: int, e: int, c: int)
    requires Tiled(h, areas) && s in h && s <= c < e && Boundary(h, h[s].home, e) && c in h && h[c].used
    requires e in h ==> h[e].used
    requires forall p :: p in h && p + h[p].size == s ==> h[p].used
    requires forall d :: d in h && s <= d < e && d != c ==> !h[d].used
    ensures s == h[s].home.First() && e == h[s].home.End() <==> LastIn(h, c, h[s].home)
  {
    var a := h[s].home;
    EndsWithin(h, areas, s, e, c);
    assert ChunkOk(h, areas, s);
    assert ChunkOk(h, areas, c);
    if s == a.First() && e == a.End() {
      forall d | d in h && d != c && h[d].home == a ensures !h[d].used {
        assert ChunkOk(h, areas, d);
      }
    }
    assert s == a.First() || exists p :: Abuts(h, p, s);
  }

  function Dropped(areas: seq<Area>, k: nat): seq<Area>
    requires k < |areas|
  {
    areas[k + 1..] + areas[..k]
  }

  lemma DroppedOk(areas: seq<Area>, k: nat)
    requires AreasOk(areas) && k < |areas|
    ensures AreasOk(Dropped(areas, k))
    ensures forall a :: a in Dropped(areas, k) <==> a in areas && a != areas[k]
  {
    var r := Dropped(areas, k);
    forall a | a in areas && a != areas[k] ensures a in r {
      var i :| 0 <= i < |areas| && areas[i] == a;
      assert r[if i > k then i - k - 1 else |areas| - k - 1 + i] == a;
    }
    forall a | a in r ensures a in areas && a != areas[k] {
      var i :| 0 <= i < |r| && r[i] == a;
      var j := if i < |areas| - k - 1 then i + k + 1 else i - (|areas| - k - 1);
      assert areas[j] == a && j != k;
      assert Apart(areas[if j < k then j else k], areas[if j < k then k else j]);
      assert AreaOk(a);
    }
    forall i, j | 0 <= i < j < |r| ensures Apart(r[i], r[j]) {
      var n := |areas| - k - 1;
      var i', j' := if i < n then i + k + 1 else i - n, if j < n then j + k + 1 else j - n;
      assert r[i] == areas[i'] && r[j] == areas[j'] && i' != j';
      assert Apart(areas[if i' < j' then i' else j'], areas[if i' < j' then j' else i']);
    }
  }

  lemma DropTiled(h: Heap, areas: seq<Area>, k: nat)
    requires Tiled(h, areas) && k < |areas|
    requires var a := areas[k]; a.First() in h && h[a.First()].size == a.size
    ensures Tiled(h - {areas[k].First()}, Dropped(areas, k))
  {
    var a := areas[k];
    var h', areas' := h - {a.First()}, Dropped(areas, k);
    DroppedOk(areas, k);
    forall c | c in h' ensures ChunkOk(h', areas', c) {
      assert ChunkOk(h, areas, c);
      if c != h[c].home.First() {
        var p :| Abuts(h, p, c);
        assert Abuts(h', p, c);
      }
    }
  }

  lemma DropStep(m: Mem, blocks: seq<nat>, areas: seq<Area>, h: Heap, f: Free, lists: Lists, k: nat)
    requires k < |areas| && DetachedOk(m, blocks, areas, h, f, lists, areas[k].First())
    requires h[areas[k].First()].size == areas[k].size
    ensures PoolOk(m, blocks, Dropped(areas, k), h - {areas[k].First()}, f, lists)
    ensures Live(h - {areas[k].First()}) == Live(h)
  {
    var h' := h - {areas[k].First()};
    DropTiled(h, areas, k);
    DroppedOk(areas, k);
    assert Coalesced(h');
    forall c | c in h' ensures ChunkTagged(m, h', c) {
      assert ChunkTagged(m, h, c);
    }
    forall a | a in Dropped(areas, k) ensures Marked(m, a) {
      assert Marked(m, a);
    }
    hide Tiled, IndexOk, Coalesced, Dropped;
  }

  /** Whether and how a run extends over what precedes block `c`, from the tags. */
  lemma PrevFacts(m: Mem, blocks: seq<nat>, areas: seq<Area>, h: Heap, f: Free, lists: Lists, c: int)
    requires PoolOk(m, blocks, areas, h, f, lists) && c in h && h[c].used
    ensures var e := c + h[c].size;
      && RegionOk(m, blocks, areas, h, f, lists, c, e) && SizeOf(Tag(m, c)) == h[c].size && OnlyUsed(h, c, e, c)
      && if InUseBit(PrevTag(m, c)) then forall p :: p in h && p + h[p].size == c ==> h[p].used
         else var s := c - SizeOf(PrevTag(m, c));
           Grows(h, c, e, s, s, e) && OnlyUsed(h, s, e, c) && forall p :: p in h && p + h[p].size == s ==> h[p].used
  {
    UsedRegion(m, blocks, areas, h, f, lists, c);
    OnlyUsedSelf(h, areas, c);
    ReadPrev(m, h, areas, c);
    hide Tiled, Tagged, Coalesced, IndexOk, OnlyUsed, FreeMap, FreeOutside;
    if !InUseBit(PrevTag(m, c)) {
      var s := c - SizeOf(PrevTag(m, c));
      NeighboursUsed(h, areas, s);
      GrowKeepsOnly(h, areas, c, c + h[c].size, s, s, c + h[c].size, c);
    }
  }

  /** Whether and how the run `[s, e)` around block `c` extends over what follows it, from the tags. */
  lemma NextFacts(m: Mem, blocks: seq<nat>, areas: seq<Area>, h: Heap, f: Free, lists: Lists, s: int, e: int, c: int)
    requires RegionOk(m, blocks, areas, h, f, lists, s, e) && OnlyUsed(h, s, e, c)
    ensures if InUseBit(Tag(m, e)) then e in h ==> h[e].used
            else var e' := e + SizeOf(Tag(m, e));
              Grows(h, s, e, e, s, e') && OnlyUsed(h, s, e', c) && (e' in h ==> h[e'].used)
  {
    HomeInAreas(h, areas, s);
    ReadNext(m, h, areas, h[s].home, e);
    hide Tiled, Tagged, Coalesced, IndexOk, OnlyUsed, FreeMap, FreeOutside;
    if !InUseBit(Tag(m, e)) {
      NeighboursUsed(h, areas, e);
      GrowKeepsOnly(h, areas, s, e, e, s, e + SizeOf(Tag(m, e)), c);
    }
  }

  /** A free chunk lies between the two markers of an area exactly when it is the whole area. */
  lemma AreaTags(m: Mem, blocks: seq<nat>, areas: seq<Area>, h: Heap, f: Free, lists: Lists, c: int)
    requires DetachedOk(m, blocks, areas, h, f, lists, c)
    ensures PrevTag(m, c) == 1 && Tag(m, c + SizeOf(Tag(m, c))) == 1
       <==> c == h[c].home.First() && h[c].size == h[c].home.size
  {
    HomeInAreas(h, areas, c);
    WholeChunk(h, areas, c);
    ReadPrev(m, h, areas, c);
    ReadFree(m, h, areas, c);
    ReadNext(m, h, areas, h[c].home, c + h[c].size);
    hide Tiled, Tagged, Coalesced, IndexOk, FreeMap, FreeOutside, Live, LiveOutside;
  }

  /** Freeing a consolidated run around `c`: one detached free chunk. */
  lemma ReleaseStep(m: Mem, blocks: seq<nat>, areas: seq<Area>, h: Heap, f: Free, lists: Lists, s: int, e: int, c: int)
    requires RegionOk(m, blocks, areas, h, f, lists, s, e) && OnlyUsed(h, s, e, c)
    requires e in h ==> h[e].used
    requires forall p :: p in h && p + h[p].size == s ==> h[p].used
    ensures var m', h' := SetTags(m, s, e - s, false), Fuse(h, s, e, false);
      && DetachedOk(m', blocks, areas, h', f, lists, s)
      && Live(h') == Live(h) - {c} && HeadersOnly(m, m', h, areas) && h'.Keys <= h.Keys
      && s in h && h'[s] == Chunk(e - s, false, h[s].home)
    ensures c in h && h[c].home == h[s].home
    ensures s == h[s].home.First() && e - s == h[s].home.size <==> LastIn(h, c, h[s].home)
    ensures forall a :: a != h[s].home ==> !LastIn(h, c, a)
  {
    hide Tiled, Tagged, Coalesced, IndexOk, FreeOutside, FreeMap, Live, LiveOutside, HeadersOnly, DetachedOk,
      SetTags, LastIn, Boundary;
    CloseFree(m, blocks, areas, h, f, lists, s, e);
    OnlyUsedLive(h, s, e, c);
    LastInIff(h, areas, s, e, c);
    EndsWithin(h, areas, s, e, c);
    LastInHome(h, c);
  }

  lemma LastInHome(h: Heap, c: int)
    requires c in h
    ensures forall a :: a != h[c].home ==> !LastIn(h, c, a)
  {
  }

  // ----- starting over

  ghost function NoLists(): Lists {
    seq(NUM_BINS, i => [])
  }

  lemma EmptyIndex(m: Mem, blocks: seq<nat>)
    requires forall i: nat :: i < NUM_BINS ==> Ring(m, BinAddr(i), [])
    requires |blocks| == 4 && forall w :: 0 <= w < 4 ==> blocks[w] == 0
    ensures IndexOk(m, blocks, NoLists(), map[])
  {
    forall i: nat | i < NUM_BINS ensures !BinBit(blocks, i) {
      ZeroBits(i % 32);
    }
  }

  lemma NoAreas(m: Mem, blocks: seq<nat>, lists: Lists)
    requires IndexOk(m, blocks, lists, map[])
    ensures PoolOk(m, blocks, [], map[], map[], lists)
  {
    hide IndexOk;
  }

  /** The order of the areas does not matter. */
  lemma ReorderAreas(m: Mem, blocks: seq<nat>, areas: seq<Area>, areas': seq<Area>, h: Heap, f: Free, lists: Lists)
    requires PoolOk(m, blocks, areas, h, f, lists) && AreasOk(areas')
    requires forall a :: a in areas <==> a in areas'
    ensures PoolOk(m, blocks, areas', h, f, lists)
  {
    hide IndexOk, Tiled, Tagged, Coalesced;
    ReorderTiled(areas, areas', h);
    ReorderTagged(m, areas, areas', h);
  }

  lemma ReorderTiled(areas: seq<Area>, areas': seq<Area>, h: Heap)
    requires Tiled(h, areas) && AreasOk(areas') && forall a :: a in areas <==> a in areas'
    ensures Tiled(h, areas')
  {
    hide AreasOk, Disjoint, Abuts, Boundary;
    forall c | c in h ensures ChunkOk(h, areas', c) {
      assert ChunkOk(h, areas, c);
    }
  }

  lemma ReorderTagged(m: Mem, areas: seq<Area>, areas': seq<Area>, h: Heap)
    requires Tagged(m, h, areas) && forall a :: a in areas <==> a in areas'
    ensures Tagged(m, h, areas')
  {
    hide ChunkTagged, Marked;
  }

  lemma LaterArea(areas: seq<Area>, done: seq<Area>, k: nat)
    requires AreasOk(areas) && k < |areas| && forall a :: a in done <==> a in areas[..k]
    ensures CanAdd(done, areas[k])
  {
    forall b | b in done ensures Apart(areas[k], b) {
      var i :| 0 <= i < k && areas[..k][i] == b;
      assert Apart(areas[i], areas[k]);
    }
    assert areas[k] in areas;
  }

  /** SetSizeFree before SetNeighborsInUse leaves the same memory. */
  lemma MarkEitherWay(m: Mem, a: Area)
    requires a.size > 0 && a.size % 64 == 0
    ensures SetTags(m, a.First(), a.size, false)[a.First() + 16 := 1][a.First() + a.size + 24 := 1] == MarkArea(m, a)
  {
  }

  /** What indexing a detached chunk needs to know. */
  lemma DetachedFacts(m: Mem, blocks: seq<nat>, areas: seq<Area>, h: Heap, f: Free, lists: Lists, c: int)
    requires DetachedOk(m, blocks, areas, h, f, lists, c)
    ensures Tiled(h, areas) && Coalesced(h) && Tagged(m, h, areas) && c in h && !h[c].used
    ensures f == FreeMap(h) - {c} && c !in f && SlotOk(c, Tag(m, c)) && Tag(m, c) == h[c].size
    ensures IndexOk(m, blocks, lists, f)
  {
    ReadFree(m, h, areas, c);
  }
}
