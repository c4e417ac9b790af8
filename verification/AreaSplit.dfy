/**
 Splitting a request off a new area (`split_new_area` in common/SC_AllocPool.cpp)
 links the rest whatever its size.  The pool stays well formed exactly when the
 rest is large enough for a chunk.
 */
module AreaSplit {
  import opened Sizes
  import opened Links
  import opened Bins
  import opened Chunks
  import opened Tags
  import opened PoolState

  /** The tag writes for a block of `size` bytes at the front of new area `a`; linking writes no tags. */
  function SplitNewArea(m: Mem, a: Area, size: int): Mem {
    SetTags(SetTags(MarkArea(m, a), a.First() + size, a.size - size, false), a.First(), size, true)
  }

  /** Some heap with a block at the front of `a` has the tags of `m`. */
  ghost predicate Representable(m: Mem, areas: seq<Area>, a: Area) {
    exists h: Heap :: Tiled(h, areas) && Tagged(m, h, areas) && a.First() in h && h[a.First()].used
  }

  lemma SplitTagWords(m: Mem, a: Area, size: int)
    requires AreaOk(a) && size % 64 == 0 && MIN_ALLOC <= size <= a.size
    ensures var m' := SplitNewArea(m, a, size);
      && Tag(m', a.First()) == size + 1
      && Tag(m', a.First() + size) == a.size - size
  {
  }

  /** The tags are those of a heap only if the rest is as large as a chunk. */
  lemma RestIsChunk(m: Mem, areas: seq<Area>, a: Area, size: int, h: Heap)
    requires AreaOk(a) && a in areas && size % 64 == 0 && MIN_ALLOC <= size <= a.size
    requires Tiled(h, areas) && Tagged(SplitNewArea(m, a, size), h, areas) && a.First() in h && h[a.First()].used
    ensures a.size - size >= MIN_ALLOC
  {
    var c, m' := a.First(), SplitNewArea(m, a, size);
    SplitTagWords(m, a, size);
    assert ChunkOk(h, areas, c) && ChunkTagged(m', h, c);
    assert Marked(m', a);
    assert h[c].size == size;
    if c + size in h {
      assert ChunkOk(h, areas, c + size) && ChunkTagged(m', h, c + size);
    }
  }

  /** A rest of at least a chunk becomes one. */
  lemma LargeRest(m: Mem, h: Heap, areas: seq<Area>, a: Area, size: int)
    requires Tiled(h, areas) && Tagged(m, h, areas) && CanAdd(areas, a)
    requires size % 64 == 0 && MIN_ALLOC <= size && size + MIN_ALLOC <= a.size
    ensures var h' := Split(h[a.First() := Chunk(a.size, false, a)], a.First(), size, true, false);
      && Tiled(h', [a] + areas) && Tagged(SplitNewArea(m, a, size), h', [a] + areas) && a.First() in h'
        && h'[a.First()].used
  {
    hide Tiled, Tagged, SetTags;
    var h1 := h[a.First() := Chunk(a.size, false, a)];
    var m1 := MarkArea(m, a);
    AddAreaTiled(h, areas, a);
    AddAreaTagged(m, h, areas, a);
    LinksSame(m1, FreeMap(h1).Keys);
    var m2 := SetTags(m1, a.First() + size, a.size - size, false);
    LinksSame(m2, {});
    SplitTiled(h1, [a] + areas, a.First(), size, true, false);
    SplitTags(m1, m1, m2, h1, [a] + areas, a.First(), size, {});
  }

  /** The invariant survives the split of a new area exactly when the rest can be a chunk. */
  lemma SplitNewAreaExact(m: Mem, h: Heap, areas: seq<Area>, a: Area, size: int)
    requires Tiled(h, areas) && Tagged(m, h, areas) && CanAdd(areas, a)
    requires size % 64 == 0 && MIN_ALLOC <= size <= a.size
    ensures Representable(SplitNewArea(m, a, size), [a] + areas, a) <==> a.size - size >= MIN_ALLOC
  {
    if a.size - size >= MIN_ALLOC {
      LargeRest(m, h, areas, a, size);
    }
    forall h': Heap | Tiled(h', [a] + areas) && Tagged(SplitNewArea(m, a, size), h', [a] + areas)
      && a.First() in h' && h'[a.First()].used
      ensures a.size - size >= MIN_ALLOC
    {
      RestIsChunk(m, [a] + areas, a, size, h');
    }
  }
}
