/**
 The chunks of a pool, as the boundary tags describe them.

 An area of memory is tiled by chunks.  `Heap` maps the address of each chunk
 to its size, whether it is in use, and the area it belongs to.
 */
module Chunks {
  import opened Sizes

  /** `base` is the aligned address of the area header, `size` its `mSize`. */
  datatype Area = Area(base: int, size: int) {
    /** Address of `mChunk`, the first chunk. */
    function First(): int { base + AREA_HEADER }

    /** Address of the end marker, one header past the last chunk. */
    function End(): int { base + AREA_HEADER + size }
  }

  datatype Chunk = Chunk(size: int, used: bool, home: Area)

  type Heap = map<int, Chunk>

  ghost predicate AreaOk(a: Area) {
    a.base > 0 && a.base % 64 == 0 && a.size % 64 == 0 && MIN_ALLOC <= a.size < MAX_SIZE
  }

  ghost predicate Apart(a: Area, b: Area) {
    a.End() + HEADER <= b.base || b.End() + HEADER <= a.base
  }

  ghost predicate AreasOk(areas: seq<Area>) {
    && (forall a :: a in areas ==> AreaOk(a))
    && (forall i, j :: 0 <= i < j < |areas| ==> Apart(areas[i], areas[j]))
  }

  /** Chunk `p` ends where chunk `c` begins. */
  ghost predicate Abuts(h: Heap, p: int, c: int) {
    p in h && c in h && p + h[p].size == c && h[p].home == h[c].home
  }

  /** Address `e` bounds a run of chunks of `a`. */
  ghost predicate Boundary(h: Heap, a: Area, e: int) {
    e == a.End() || (e in h && h[e].home == a)
  }

  ghost predicate ChunkOk(h: Heap, areas: seq<Area>, c: int)
    requires c in h
  {
    var k := h[c];
    && k.home in areas
    && c % 64 == 32 && k.size % 64 == 0 && k.size >= MIN_ALLOC
    && k.home.First() <= c && c + k.size <= k.home.End()
    && Boundary(h, k.home, c + k.size)
    && (c == k.home.First() || exists p :: Abuts(h, p, c))
  }

  ghost predicate Disjoint(h: Heap) {
    forall c, d :: c in h && d in h && c < d ==> c + h[c].size <= d
  }

  /** Every area starts with a chunk of its own. */
  ghost predicate FirstsOk(h: Heap, areas: seq<Area>) {
    forall a :: a in areas ==> a.First() in h && h[a.First()].home == a
  }

  ghost predicate ChunksOk(h: Heap, areas: seq<Area>) {
    forall c {:trigger ChunkOk(h, areas, c)} :: c in h ==> ChunkOk(h, areas, c)
  }

  /** The chunks tile every area, from its first chunk to its end marker. */
  ghost predicate Tiled(h: Heap, areas: seq<Area>) {
    AreasOk(areas) && FirstsOk(h, areas) && ChunksOk(h, areas) && Disjoint(h)
  }

  /** No two free chunks are neighbours. */
  ghost predicate Coalesced(h: Heap) {
    forall c :: c in h && !h[c].used && c + h[c].size in h ==> h[c + h[c].size].used
  }

  // ----- the one structural change every operation is made of

  /** Replaces the chunks of `[c, e)` by a single one. */
  function Fuse(h: Heap, c: int, e: int, used: bool): Heap
    requires c in h
  {
    (map d | d in h && !(c <= d < e) :: h[d])[c := Chunk(e - c, used, h[c].home)]
  }

  /** Divides chunk `c` after `s` bytes. */
  function Split(h: Heap, c: int, s: int, used: bool, restUsed: bool): Heap
    requires c in h
  {
    h[c := Chunk(s, used, h[c].home)][c + s := Chunk(h[c].size - s, restUsed, h[c].home)]
  }

  /** A boundary past `c` lies at or after the end of `c`, in its area. */
  lemma BoundaryAfter(h: Heap, areas: seq<Area>, c: int, e: int)
    requires Tiled(h, areas) && c in h && c < e && Boundary(h, h[c].home, e)
    ensures c + h[c].size <= e <= h[c].home.End()
    ensures e % 64 == 32
  {
    ChunkAt(h, areas, c);
    if e in h {
      ChunkAt(h, areas, e);
    }
    EndSlot(areas, h[c].home);
  }

  lemma EndSlot(areas: seq<Area>, a: Area)
    requires AreasOk(areas) && a in areas
    ensures a.End() % 64 == 32
  {
    assert AreaOk(a);
  }

  lemma AreasApart(areas: seq<Area>, a: Area, b: Area)
    requires AreasOk(areas) && a in areas && b in areas && a != b
    ensures Apart(a, b)
  {
    var i :| 0 <= i < |areas| && areas[i] == a;
    var j :| 0 <= j < |areas| && areas[j] == b;
    assert Apart(areas[if i < j then i else j], areas[if i < j then j else i]);
  }

  /** A chunk between the ends of an area belongs to it. */
  lemma HomeOf(h: Heap, areas: seq<Area>, d: int, a: Area)
    requires Tiled(h, areas) && d in h && a in areas && a.base <= d < a.End() + HEADER
    ensures h[d].home == a
  {
    assert ChunkOk(h, areas, d);
    if h[d].home != a {
      AreasApart(areas, h[d].home, a);
    }
  }

  /** Chunks that start in `[c, e)` end there too. */
  lemma EndsWithin(h: Heap, areas: seq<Area>, c: int, e: int, d: int)
    requires Tiled(h, areas) && c in h && c < e && Boundary(h, h[c].home, e)
    requires d in h && c <= d < e
    ensures h[d].home == h[c].home && d + h[d].size <= e
  {
    BoundaryAfter(h, areas, c, e);
    assert ChunkOk(h, areas, c);
    HomeOf(h, areas, d, h[c].home);
    assert ChunkOk(h, areas, d);
  }

  lemma FuseDisjoint(h: Heap, areas: seq<Area>, c: int, e: int, used: bool)
    requires Tiled(h, areas) && c in h && c < e && Boundary(h, h[c].home, e)
    ensures Disjoint(Fuse(h, c, e, used))
  {
  }

  lemma FusePred(h: Heap, areas: seq<Area>, c: int, e: int, used: bool, d: int)
    requires Tiled(h, areas) && c in h && c < e && Boundary(h, h[c].home, e)
    requires d in h && (d <= c || e <= d) && d != h[d].home.First()
    ensures exists p :: Abuts(Fuse(h, c, e, used), p, d)
  {
    var h' := Fuse(h, c, e, used);
    assert ChunkOk(h, areas, d);
    var p :| Abuts(h, p, d);
    assert ChunkOk(h, areas, p);
    if c <= p < e {
      EndsWithin(h, areas, c, e, p);
      assert Abuts(h', c, d);
    } else {
      assert Abuts(h', p, d);
    }
  }

  lemma FuseBoundary(h: Heap, areas: seq<Area>, c: int, e: int, used: bool, d: int)
    requires Tiled(h, areas) && c in h && c < e && Boundary(h, h[c].home, e)
    requires d in h && !(c <= d < e)
    ensures Boundary(Fuse(h, c, e, used), h[d].home, d + h[d].size)
  {
    assert ChunkOk(h, areas, d);
  }

  lemma ChunkAt(h: Heap, areas: seq<Area>, c: int)
    requires Tiled(h, areas) && c in h
    ensures ChunkOk(h, areas, c)
  {
  }

  lemma FuseChunkOk(h: Heap, areas: seq<Area>, c: int, e: int, used: bool, d: int)
    requires Tiled(h, areas) && c in h && c < e && Boundary(h, h[c].home, e)
    requires d in Fuse(h, c, e, used)
    ensures ChunkOk(Fuse(h, c, e, used), areas, d)
  {
    hide Tiled, Abuts;
    BoundaryAfter(h, areas, c, e);
    ChunkAt(h, areas, c);
    ChunkAt(h, areas, d);
    if d != h[d].home.First() {
      FusePred(h, areas, c, e, used, d);
    }
    if d != c {
      FuseBoundary(h, areas, c, e, used, d);
    }
  }

  lemma FuseFirsts(h: Heap, areas: seq<Area>, c: int, e: int, used: bool)
    requires Tiled(h, areas) && c in h && c < e && Boundary(h, h[c].home, e)
    ensures FirstsOk(Fuse(h, c, e, used), areas)
  {
    forall a | a in areas ensures a.First() in Fuse(h, c, e, used) && Fuse(h, c, e, used)[a.First()].home == a {
      assert ChunkOk(h, areas, c);
      if c <= a.First() < e {
        EndsWithin(h, areas, c, e, a.First());
      }
    }
  }

  lemma FuseTiled(h: Heap, areas: seq<Area>, c: int, e: int, used: bool)
    requires Tiled(h, areas) && c in h && c < e && Boundary(h, h[c].home, e)
    ensures Tiled(Fuse(h, c, e, used), areas)
  {
    FuseDisjoint(h, areas, c, e, used);
    FuseFirsts(h, areas, c, e, used);
    forall d | d in Fuse(h, c, e, used) ensures ChunkOk(Fuse(h, c, e, used), areas, d) {
      FuseChunkOk(h, areas, c, e, used, d);
    }
  }

  ghost predicate CanSplit(h: Heap, c: int, s: int) {
    c in h && s % 64 == 0 && MIN_ALLOC <= s && s + MIN_ALLOC <= h[c].size
  }

  lemma SplitChunkOk(h: Heap, areas: seq<Area>, c: int, s: int, used: bool, restUsed: bool, d: int)
    requires Tiled(h, areas) && CanSplit(h, c, s) && c + s !in h
    requires d in Split(h, c, s, used, restUsed)
    ensures ChunkOk(Split(h, c, s, used, restUsed), areas, d)
  {
    hide Tiled;
    var h' := Split(h, c, s, used, restUsed);
    ChunkAt(h, areas, c);
    if d == c + s {
      assert Abuts(h', c, d);
    } else if d == c {
      if c != h[c].home.First() {
        var p :| Abuts(h, p, c);
        assert Abuts(h', p, c);
      }
    } else {
      ChunkAt(h, areas, d);
      assert Boundary(h', h'[d].home, d + h'[d].size);
      if d != h[d].home.First() {
        var p :| Abuts(h, p, d);
        if p == c {
          assert Abuts(h', c + s, d);
        } else {
          assert Abuts(h', p, d);
        }
      }
    }
  }

  lemma SplitDisjoint(h: Heap, c: int, s: int, used: bool, restUsed: bool)
    requires Disjoint(h) && CanSplit(h, c, s)
    ensures c + s !in h
    ensures Disjoint(Split(h, c, s, used, restUsed))
  {
  }

  lemma SplitFirsts(h: Heap, areas: seq<Area>, c: int, s: int, used: bool, restUsed: bool)
    requires FirstsOk(h, areas) && c in h && c + s !in h
    ensures FirstsOk(Split(h, c, s, used, restUsed), areas)
  {
  }

  lemma SplitTiled(h: Heap, areas: seq<Area>, c: int, s: int, used: bool, restUsed: bool)
    requires Tiled(h, areas) && CanSplit(h, c, s)
    ensures Tiled(Split(h, c, s, used, restUsed), areas)
    ensures c + s !in h
  {
    hide ChunkOk, Disjoint, AreasOk, FirstsOk;
    var h' := Split(h, c, s, used, restUsed);
    SplitDisjoint(h, c, s, used, restUsed);
    SplitFirsts(h, areas, c, s, used, restUsed);
    forall d | d in h' ensures ChunkOk(h', areas, d) {
      SplitChunkOk(h, areas, c, s, used, restUsed, d);
    }
  }
}
