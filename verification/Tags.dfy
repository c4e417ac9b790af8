/**
 Boundary tags in memory represent the chunks.

 Each chunk stores its size and in-use bit in its own `mSize` and again in the
 `mPrevSize` of whatever follows it; each area starts and ends with a marker.
 */
module Tags {
  import opened Sizes
  import opened Links
  import opened Bins
  import opened Chunks

  function TagWord(size: int, used: bool): int {
    if used then size + 1 else size
  }

  function Word(k: Chunk): int { TagWord(k.size, k.used) }

  ghost predicate ChunkTagged(m: Mem, h: Heap, c: int)
    requires c in h
  {
    Tag(m, c) == Word(h[c]) && PrevTag(m, c + h[c].size) == Word(h[c])
  }

  ghost predicate Marked(m: Mem, a: Area) {
    PrevTag(m, a.First()) == 1 && Tag(m, a.End()) == 1
  }

  /** The tags in `m` are those of `h`: the debug checks of the pool. */
  ghost predicate Tagged(m: Mem, h: Heap, areas: seq<Area>) {
    && (forall c {:trigger ChunkTagged(m, h, c)} :: c in h ==> ChunkTagged(m, h, c))
    && (forall a {:trigger Marked(m, a)} :: a in areas ==> Marked(m, a))
  }

  /** SetSizeFree and SetSizeInUse. */
  function SetTags(m: Mem, c: int, size: int, used: bool): Mem {
    m[c + size + 16 := TagWord(size, used)][c + 24 := TagWord(size, used)]
  }

  /** Only the size tag of `c` and the previous-size tag at `e` may differ. */
  ghost predicate TagsSameBut(m: Mem, m': Mem, c: set<int>, e: set<int>) {
    && (forall x :: x > 0 && x % 64 == 32 && x !in c ==> Tag(m', x) == Tag(m, x))
    && (forall x :: x > 0 && x % 64 == 32 && x !in e ==> PrevTag(m', x) == PrevTag(m, x))
  }

  lemma LinksKeepTags(m: Mem, m': Mem, keys: set<int>)
    requires LinksOnly(m, m', keys) && forall x :: x in keys ==> x % 64 == 32
    ensures TagsSameBut(m, m', {}, {})
  {
    forall x | x > 0 && x % 64 == 32 ensures Tag(m', x) == Tag(m, x) && PrevTag(m', x) == PrevTag(m, x) {
      assert x + 24 !in keys && x + 16 !in keys && x + 24 - 8 !in keys && x + 16 - 8 !in keys;
    }
  }

  lemma SetTagsFrame(m: Mem, c: int, size: int, used: bool)
    requires c % 64 == 32 && size % 64 == 0
    ensures TagsSameBut(m, SetTags(m, c, size, used), {c}, {c + size})
    ensures Tag(SetTags(m, c, size, used), c) == TagWord(size, used)
    ensures PrevTag(SetTags(m, c, size, used), c + size) == TagWord(size, used)
  {
  }

  /** End markers are not chunk addresses, and nothing ends at a first chunk. */
  lemma MarkersApart(h: Heap, areas: seq<Area>, c: int, a: Area)
    requires Tiled(h, areas) && c in h && a in areas
    ensures c != a.End() && c + h[c].size != a.First()
  {
    assert ChunkOk(h, areas, c);
    if h[c].home != a {
      AreasApart(areas, h[c].home, a);
    }
  }

  lemma KeepsChunkTag(m: Mem, m': Mem, h: Heap, h': Heap, c: set<int>, e: set<int>, d: int)
    requires TagsSameBut(m, m', c, e) && d in h && d in h' && h'[d] == h[d] && ChunkTagged(m, h, d)
    requires d > 0 && d % 64 == 32 && h[d].size % 64 == 0 && d + h[d].size > 0
    requires d !in c && d + h[d].size !in e
    ensures ChunkTagged(m', h', d)
  {
  }

  lemma KeepsMarks(m: Mem, m': Mem, a: Area, c: set<int>, e: set<int>)
    requires TagsSameBut(m, m', c, e) && Marked(m, a) && AreaOk(a)
    requires a.End() !in c && a.First() !in e
    ensures Marked(m', a)
  {
  }

  lemma TaggedFuse(m: Mem, m': Mem, h: Heap, areas: seq<Area>, c: int, e: int, used: bool)
    requires Tiled(h, areas) && Tagged(m, h, areas) && c in h && c < e && Boundary(h, h[c].home, e)
    requires TagsSameBut(m, m', {c}, {e})
    requires Tag(m', c) == PrevTag(m', e) == TagWord(e - c, used)
    ensures Tagged(m', Fuse(h, c, e, used), areas)
  {
    var h' := Fuse(h, c, e, used);
    FuseTiled(h, areas, c, e, used);
    forall d | d in h' ensures ChunkTagged(m', h', d) {
      if d != c {
        assert ChunkTagged(m, h, d);
        FuseMiss(h, areas, c, e, d);
        KeepsChunkTag(m, m', h, h', {c}, {e}, d);
      }
    }
    forall a | a in areas ensures Marked(m', a) {
      assert Marked(m, a);
      MarkersApart(h', areas, c, a);
      KeepsMarks(m, m', a, {c}, {e});
    }
  }

  lemma FuseMiss(h: Heap, areas: seq<Area>, c: int, e: int, d: int)
    requires Tiled(h, areas) && c in h && c < e && Boundary(h, h[c].home, e)
    requires d in h && !(c <= d < e)
    ensures d > 0 && d % 64 == 32 && h[d].size % 64 == 0 && d + h[d].size > 0 && d + h[d].size != e
  {
    BoundaryAfter(h, areas, c, e);
    assert ChunkOk(h, areas, c);
    assert ChunkOk(h, areas, d);
  }

  lemma SplitMiss(h: Heap, areas: seq<Area>, c: int, s: int, d: int)
    requires Tiled(h, areas) && CanSplit(h, c, s) && d in h && d != c
    ensures d > 0 && d % 64 == 32 && h[d].size % 64 == 0 && d + h[d].size > 0
    ensures d + h[d].size != c + s && d + h[d].size != c + h[c].size && d != c + s
  {
    assert ChunkOk(h, areas, c);
    assert ChunkOk(h, areas, d);
  }

  lemma TaggedSplit(m: Mem, m': Mem, h: Heap, areas: seq<Area>, c: int, s: int, used: bool, restUsed: bool)
    requires Tiled(h, areas) && Tagged(m, h, areas) && CanSplit(h, c, s)
    requires TagsSameBut(m, m', {c, c + s}, {c + s, c + h[c].size})
    requires Tag(m', c) == PrevTag(m', c + s) == TagWord(s, used)
    requires Tag(m', c + s) == PrevTag(m', c + h[c].size) == TagWord(h[c].size - s, restUsed)
    ensures Tagged(m', Split(h, c, s, used, restUsed), areas)
  {
    hide FirstsOk, ChunksOk, Disjoint, TagsSameBut, TagWord;
    var h' := Split(h, c, s, used, restUsed);
    SplitTiled(h, areas, c, s, used, restUsed);
    forall d | d in h' ensures ChunkTagged(m', h', d) {
      if d != c && d != c + s {
        assert ChunkTagged(m, h, d);
        SplitMiss(h, areas, c, s, d);
        KeepsChunkTag(m, m', h, h', {c, c + s}, {c + s, c + h[c].size}, d);
      }
    }
    forall a | a in areas ensures Marked(m', a) {
      assert Marked(m, a);
      MarkersApart(h', areas, c, a);
      MarkersApart(h', areas, c + s, a);
      KeepsMarks(m, m', a, {c, c + s}, {c + s, c + h[c].size});
    }
    hide FirstsOk, ChunksOk, Disjoint, TagsSameBut;
  }
}
