/**
 Consequences of the pool invariant that span the whole heap: no byte is lost,
 and the free chunks are determined by the blocks in use.
 */
module Conservation {
  import opened Sizes
  import opened Chunks
  import opened PoolState

  // ----- sums of sizes

  ghost function MapSum(f: map<int, int>): int
    decreases |f|
  {
    if exists c :: c in f then
      var c :| c in f;
      assert |f - {c}| < |f| by { assert (f - {c}).Keys == f.Keys - {c}; }
      f[c] + MapSum(f - {c})
    else 0
  }

  lemma MapSumNone()
    ensures MapSum(map[]) == 0
  {
  }

  lemma {:induction false} MapSumRemove(f: map<int, int>, c: int)
    requires c in f
    ensures MapSum(f) == f[c] + MapSum(f - {c})
    decreases |f|
  {
    var d :| d in f && MapSum(f) == f[d] + MapSum(f - {d});
    if d != c {
      assert (f - {d}).Keys == f.Keys - {d};
      assert (f - {c}).Keys == f.Keys - {c};
      MapSumRemove(f - {d}, c);
      MapSumRemove(f - {c}, d);
      assert f - {d} - {c} == f - {c} - {d};
    }
  }

  lemma RemoveFromUnion(f: map<int, int>, g: map<int, int>, c: int)
    requires f.Keys !! g.Keys && c in f
    ensures c in f + g && (f + g)[c] == f[c] && f + g - {c} == (f - {c}) + g
    ensures |f - {c}| < |f| && (f - {c}).Keys !! g.Keys
  {
    assert (f - {c}).Keys == f.Keys - {c};
  }

  lemma {:induction false} MapSumUnion(f: map<int, int>, g: map<int, int>)
    requires f.Keys !! g.Keys
    ensures MapSum(f + g) == MapSum(f) + MapSum(g)
    decreases |f|
  {
    if forall c :: c !in f {
      assert f + g == g;
    } else {
      var c :| c in f;
      RemoveFromUnion(f, g, c);
      MapSumRemove(f, c);
      MapSumRemove(f + g, c);
      MapSumUnion(f - {c}, g);
    }
  }

  ghost function AreaTotal(areas: seq<Area>): int {
    if areas == [] then 0 else areas[0].size + AreaTotal(areas[1..])
  }

  /** The sizes of the chunks of area `a` from address `c` on. */
  ghost function From(h: Heap, a: Area, c: int): map<int, int> {
    map d | d in h && h[d].home == a && d >= c :: h[d].size
  }

  lemma FromStep(h: Heap, areas: seq<Area>, a: Area, c: int)
    requires Tiled(h, areas) && c in h && h[c].home == a
    ensures From(h, a, c) - {c} == From(h, a, c + h[c].size) && c in From(h, a, c)
  {
    assert ChunkOk(h, areas, c);
  }

  /** The chunks from a boundary to the end marker add up to the distance between them. */
  lemma {:induction false} FromSum(h: Heap, areas: seq<Area>, a: Area, c: int)
    requires Tiled(h, areas) && a in areas && Boundary(h, a, c) && c <= a.End()
    ensures MapSum(From(h, a, c)) == a.End() - c
    decreases a.End() - c
  {
    if c == a.End() {
      forall d | d in h && h[d].home == a ensures d < c {
        assert ChunkOk(h, areas, d);
      }
      assert From(h, a, c) == map[];
    } else {
      assert ChunkOk(h, areas, c);
      FromStep(h, areas, a, c);
      MapSumRemove(From(h, a, c), c);
      FromSum(h, areas, a, c + h[c].size);
    }
  }

  /** The sizes of the chunks of some areas. */
  ghost function Part(h: Heap, some: seq<Area>): map<int, int> {
    map d | d in h && h[d].home in some :: h[d].size
  }

  lemma {:induction false} PartSum(h: Heap, areas: seq<Area>, k: nat)
    requires Tiled(h, areas) && k <= |areas|
    ensures MapSum(Part(h, areas[k..])) == AreaTotal(areas[k..])
    decreases |areas| - k
  {
    if k < |areas| {
      var a, rest := areas[k], areas[k + 1..];
      assert AreaOk(a);
      assert areas[k..] == [a] + rest;
      forall b | b in rest ensures a != b {
        var i :| 0 <= i < |rest| && rest[i] == b;
        assert Apart(areas[k], areas[k + 1 + i]);
      }
      forall d | d in h && h[d].home == a ensures d >= a.First() {
        assert ChunkOk(h, areas, d);
      }
      assert Part(h, areas[k..]) == From(h, a, a.First()) + Part(h, rest);
      MapSumUnion(From(h, a, a.First()), Part(h, rest));
      FromSum(h, areas, a, a.First());
      PartSum(h, areas, k + 1);
    } else {
      assert Part(h, areas[k..]) == map[];
    }
  }

  /** Free and used chunks together account for every byte of every area. */
  lemma BytesConserved(h: Heap, areas: seq<Area>)
    requires Tiled(h, areas)
    ensures MapSum(FreeMap(h)) + MapSum(Live(h)) == AreaTotal(areas)
  {
    PartSum(h, areas, 0);
    assert areas[0..] == areas;
    forall c | c in h ensures h[c].home in areas {
      assert ChunkOk(h, areas, c);
    }
    assert Part(h, areas) == FreeMap(h) + Live(h);
    MapSumUnion(FreeMap(h), Live(h));
  }

  // ----- the blocks in use determine the heap

  /** A free chunk of one heap ends no later than the chunk at the same address in the other. */
  lemma FreeEndsAlike(h: Heap, k: Heap, areas: seq<Area>, c: int)
    requires Tiled(h, areas) && Tiled(k, areas) && Coalesced(h) && Live(h) == Live(k)
    requires c in h && c in k && h[c].home == k[c].home && !h[c].used && !k[c].used
    ensures h[c].size >= k[c].size
  {
    assert ChunkOk(h, areas, c) && ChunkOk(k, areas, c);
    var e := c + h[c].size;
    assert e in h && h[e].used ==> e in Live(h) && e in k;
  }

  /** Every chunk of one heap is a chunk of the other. */
  lemma {:induction false} SameChunk(h: Heap, k: Heap, areas: seq<Area>, c: int)
    requires Tiled(h, areas) && Tiled(k, areas) && Coalesced(h) && Coalesced(k) && Live(h) == Live(k)
    requires c in h
    ensures c in k && k[c] == h[c]
    decreases c
  {
    assert ChunkOk(h, areas, c);
    var a := h[c].home;
    if c != a.First() {
      var p :| Abuts(h, p, c);
      assert ChunkOk(h, areas, p);
      SameChunk(h, k, areas, p);
      assert ChunkOk(k, areas, p);
      assert c in k;
    }
    assert k[c].home == a;
    if h[c].used {
      assert c in Live(h);
    } else {
      assert c !in Live(k);
      FreeEndsAlike(h, k, areas, c);
      FreeEndsAlike(k, h, areas, c);
    }
  }

  /**
   The free chunks are a function of the areas and the blocks in use: the order
   of the calls that led there leaves no trace.
   */
  lemma BlocksDetermineHeap(h: Heap, k: Heap, areas: seq<Area>)
    requires Tiled(h, areas) && Tiled(k, areas) && Coalesced(h) && Coalesced(k) && Live(h) == Live(k)
    ensures h == k
  {
    forall c | c in h ensures c in k && k[c] == h[c] {
      SameChunk(h, k, areas, c);
    }
    forall c | c in k ensures c in h {
      SameChunk(k, h, areas, c);
    }
  }

  /** With no block in use, each area is one free chunk. */
  lemma EmptyPool(h: Heap, areas: seq<Area>)
    requires Tiled(h, areas) && Coalesced(h) && Live(h) == map[]
    ensures forall a :: a in areas ==> a.First() in h && h[a.First()] == Chunk(a.size, false, a)
    ensures forall c :: c in h ==> exists a :: a in areas && c == a.First()
  {
    forall c | c in h ensures !h[c].used {
      assert c !in Live(h);
    }
    forall a | a in areas ensures h[a.First()] == Chunk(a.size, false, a) {
      assert ChunkOk(h, areas, a.First());
    }
    forall c | c in h ensures exists a :: a in areas && c == a.First() {
      assert ChunkOk(h, areas, c);
      assert forall p :: !Abuts(h, p, c);
    }
  }
}
