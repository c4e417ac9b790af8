/**
 The ring of areas: headers in memory, linked in a circle that `mAreas` enters,
 and the account of what the area callbacks were given and gave.
 */
module AreaRing {
  import opened Sizes
  import opened Links
  import opened Bins
  import opened FreeIndex
  import opened Chunks
  import opened Tags
  import opened PoolState
  import opened ReallocState

  // ----- fields of an area header

  function AreaPrev(m: Mem, area: int): int { Rd(m, area) }

  function AreaNext(m: Mem, area: int): int { Rd(m, area + 8) }

  function AreaSize(m: Mem, area: int): int { Rd(m, area + 16) }

  /** `mUnalignedPointerToThis`, what the callback returned. */
  function Unaligned(m: Mem, area: int): int { Rd(m, area + 24) }

  // ----- linking and unlinking, one memory write after the other

  /** NewArea links area `x` in front of the ring entered at `first`, 0 for no ring. */
  function LinkArea(m: Mem, x: int, first: int): Mem {
    if first != 0 then
      var m1 := m[x + 8 := first];
      var m2 := m1[x := AreaPrev(m1, first)];
      var m3 := m2[AreaNext(m2, x) := x];
      m3[AreaPrev(m3, x) + 8 := x]
    else m[x + 8 := x][x := x]
  }

  /** FreeArea takes area `x` out of a ring of several. */
  function UnlinkArea(m: Mem, x: int): Mem {
    var m1 := m[AreaPrev(m, x) + 8 := AreaNext(m, x)];
    m1[AreaNext(m1, x) := AreaPrev(m1, x)]
  }

  // ----- what the ring is

  function NextAt(i: int, n: int): int {
    if i + 1 < n then i + 1 else 0
  }

  /** The header of `a` has its size and links on to `next`, which links back. */
  ghost predicate LinkedOn(m: Mem, a: Area, next: Area) {
    AreaNext(m, a.base) == next.base && AreaPrev(m, next.base) == a.base && AreaSize(m, a.base) == a.size
  }

  /** Entered at `first`, the ring visits exactly `areas`, in this order. */
  ghost predicate Linked(m: Mem, first: int, areas: seq<Area>) {
    && first == (if areas == [] then 0 else areas[0].base)
    && forall i :: 0 <= i < |areas| ==> LinkedOn(m, areas[i], areas[NextAt(i, |areas|)])
  }

  /** The pointers by which the callback knows the areas. */
  function Raws(m: Mem, areas: seq<Area>): seq<int> {
    seq(|areas|, i requires 0 <= i < |areas| => Unaligned(m, areas[i].base))
  }

  /** Every pointer obtained from the callback was returned to it once, or is that of an area. */
  ghost predicate Accounted(m: Mem, areas: seq<Area>, obtained: seq<int>, returned: seq<int>) {
    multiset(obtained) == multiset(returned) + multiset(Raws(m, areas))
  }

  ghost predicate RingOk(m: Mem, first: int, areas: seq<Area>, obtained: seq<int>, returned: seq<int>) {
    Linked(m, first, areas) && Accounted(m, areas, obtained, returned)
  }

  // ----- what leaves it alone

  ghost predicate AreaWord(areas: seq<Area>, w: int) {
    exists a :: a in areas && a.base <= w < a.base + AREA_HEADER
  }

  /** The area headers read the same. */
  ghost predicate AreasSame(m: Mem, m': Mem, areas: seq<Area>) {
    forall w :: AreaWord(areas, w) ==> Rd(m', w) == Rd(m, w)
  }

  lemma SameFields(m: Mem, m': Mem, areas: seq<Area>, a: Area)
    requires AreasSame(m, m', areas) && a in areas
    ensures AreaNext(m', a.base) == AreaNext(m, a.base) && AreaPrev(m', a.base) == AreaPrev(m, a.base)
    ensures AreaSize(m', a.base) == AreaSize(m, a.base) && Unaligned(m', a.base) == Unaligned(m, a.base)
  {
    assert AreaWord(areas, a.base) && AreaWord(areas, a.base + 8);
    assert AreaWord(areas, a.base + 16) && AreaWord(areas, a.base + 24);
  }

  lemma RingKept(m: Mem, m': Mem, first: int, areas: seq<Area>, obtained: seq<int>, returned: seq<int>)
    requires RingOk(m, first, areas, obtained, returned) && AreasSame(m, m', areas)
    ensures RingOk(m', first, areas, obtained, returned)
  {
    hide AreasSame;
    forall a | a in areas
      ensures AreaNext(m', a.base) == AreaNext(m, a.base) && AreaPrev(m', a.base) == AreaPrev(m, a.base)
        && AreaSize(m', a.base) == AreaSize(m, a.base) && Unaligned(m', a.base) == Unaligned(m, a.base)
    {
      SameFields(m, m', areas, a);
    }
    forall i | 0 <= i < |areas| ensures LinkedOn(m', areas[i], areas[NextAt(i, |areas|)]) {
      assert LinkedOn(m, areas[i], areas[NextAt(i, |areas|)]);
    }
    assert Raws(m', areas) == Raws(m, areas);
  }

  lemma AreasTrans(m: Mem, m1: Mem, m2: Mem, areas: seq<Area>)
    requires AreasSame(m, m1, areas) && AreasSame(m1, m2, areas)
    ensures AreasSame(m, m2, areas)
  {
  }

  /** Area headers lie outside the chunks and markers of all areas. */
  lemma OutsideBody(areas: seq<Area>, a: Area, b: Area, w: int)
    requires AreasOk(areas) && a in areas && b in areas && a.base <= w < a.base + AREA_HEADER
    ensures w > 0 && !(b.First() <= w < b.End() + HEADER)
  {
    assert AreaOk(a) && AreaOk(b);
    if a != b {
      AreasApart(areas, a, b);
    }
  }

  lemma BodyNotArea(areas: seq<Area>, b: Area, w: int)
    requires AreasOk(areas) && b in areas && b.First() <= w < b.End() + HEADER
    ensures !AreaWord(areas, w)
  {
    forall a | a in areas ensures w < a.base || a.base + AREA_HEADER <= w {
      if a.base <= w < a.base + AREA_HEADER {
        OutsideBody(areas, a, b, w);
      }
    }
  }

  lemma PayloadNotArea(h: Heap, areas: seq<Area>, all: seq<Area>, c: int, w: int)
    requires Tiled(h, areas) && AreasOk(all) && (forall a :: a in areas ==> a in all)
    requires c in h && c <= w < h[c].home.End() + HEADER
    ensures !AreaWord(all, w)
  {
    assert ChunkOk(h, areas, c);
    BodyNotArea(all, h[c].home, w);
  }

  /** Neither the pool object nor a chunk header nor an end marker shares a word with an area header. */
  lemma HeaderNotArea(h: Heap, areas: seq<Area>, all: seq<Area>, w: int)
    requires Tiled(h, areas) && AreasOk(all) && (forall a :: a in areas ==> a in all)
    requires w < 0 || HeaderWord(h, areas, w)
    ensures !AreaWord(all, w)
  {
    if w >= 0 {
      var x :| HeaderAt(h, areas, x) && x <= w < x + HEADER;
      if x in h {
        assert ChunkOk(h, areas, x);
        PayloadNotArea(h, areas, all, x, w);
      } else {
        var b :| b in areas && x == b.End();
        assert AreaOk(b);
        BodyNotArea(all, b, w);
      }
    } else {
      forall a | a in all ensures w < a.base {
        AreaFields(all, a);
      }
    }
  }

  lemma HeadersAreas(m: Mem, m': Mem, h: Heap, areas: seq<Area>, all: seq<Area>)
    requires Tiled(h, areas) && AreasOk(all) && (forall a :: a in areas ==> a in all) && HeadersOnly(m, m', h, areas)
    ensures AreasSame(m, m', all)
  {
    forall w | AreaWord(all, w) ensures Rd(m', w) == Rd(m, w) {
      if w < 0 || HeaderWord(h, areas, w) {
        HeaderNotArea(h, areas, all, w);
      }
    }
  }

  lemma RingAfterHeaders(m: Mem, m': Mem, h: Heap, first: int, areas: seq<Area>, obtained: seq<int>, returned: seq<int>)
    requires Tiled(h, areas) && HeadersOnly(m, m', h, areas) && RingOk(m, first, areas, obtained, returned)
    ensures RingOk(m', first, areas, obtained, returned)
  {
    HeadersAreas(m, m', h, areas, areas);
    RingKept(m, m', first, areas, obtained, returned);
  }

  /** The same with one more header, at `x` in the area of chunk `c`. */
  lemma RingAfterMore(m: Mem, m': Mem, h: Heap, first: int, areas: seq<Area>, obtained: seq<int>, returned: seq<int>,
                      x: int, c: int)
    requires Tiled(h, areas) && HeadersOr(m, m', h, areas, x) && c in h && c <= x <= h[c].home.End()
    requires RingOk(m, first, areas, obtained, returned)
    ensures RingOk(m', first, areas, obtained, returned)
  {
    forall w | AreaWord(areas, w) ensures Rd(m', w) == Rd(m, w) {
      if w < 0 || HeaderWord(h, areas, w) {
        HeaderNotArea(h, areas, areas, w);
      }
      if x <= w < x + HEADER {
        PayloadNotArea(h, areas, areas, c, w);
      }
    }
    RingKept(m, m', first, areas, obtained, returned);
  }

  lemma RingAfterTags(m: Mem, h: Heap, first: int, areas: seq<Area>, obtained: seq<int>, returned: seq<int>,
                      c: int, e: int, used: bool)
    requires Tiled(h, areas) && c in h && c < e && Boundary(h, h[c].home, e)
    requires RingOk(m, first, areas, obtained, returned)
    ensures RingOk(SetTags(m, c, e - c, used), first, areas, obtained, returned)
  {
    hide Tiled, RingOk, HeadersOnly, SetTags;
    TagsHeaders(m, h, areas, c, e, used);
    RingAfterHeaders(m, SetTags(m, c, e - c, used), h, first, areas, obtained, returned);
  }

  /** Dividing a detached chunk writes the header of the rest. */
  lemma RingAfterCarve(m: Mem, m3: Mem, h: Heap, first: int, areas: seq<Area>, obtained: seq<int>, returned: seq<int>,
                       c: int, s: int)
    requires Tiled(h, areas) && CanSplit(h, c, s)
    requires LinksOnly(SetTags(m, c + s, h[c].size - s, false), m3, (FreeMap(h) - {c}).Keys + {c + s})
    requires RingOk(m, first, areas, obtained, returned)
    ensures RingOk(SetTags(m3, c, s, true), first, areas, obtained, returned)
  {
    hide RingOk;
    assert ChunkOk(h, areas, c);
    CarveHeaders(m, m3, h, areas, c, s);
    RingAfterMore(m, SetTags(m3, c, s, true), h, first, areas, obtained, returned, c + s, c);
  }

  lemma CarveHeaders(m: Mem, m3: Mem, h: Heap, areas: seq<Area>, c: int, s: int)
    requires Tiled(h, areas) && CanSplit(h, c, s)
    requires LinksOnly(SetTags(m, c + s, h[c].size - s, false), m3, (FreeMap(h) - {c}).Keys + {c + s})
    ensures HeadersOr(m, SetTags(m3, c, s, true), h, areas, c + s)
  {
    var e, m1 := c + h[c].size, SetTags(m, c + s, h[c].size - s, false);
    assert ChunkOk(h, areas, c) && HeaderAt(h, areas, c) && HeaderAt(h, areas, e);
    FreeKeysOk(h, areas);
    assert forall x :: x in (FreeMap(h) - {c}).Keys ==> x in h;
    hide FreeMap, Tiled;
    forall w | w >= 0 && !HeaderWord(h, areas, w) && !(c + s <= w < c + s + HEADER)
      ensures Rd(SetTags(m3, c, s, true), w) == Rd(m, w)
    {
      assert HeaderAt(h, areas, w) ==> HeaderWord(h, areas, w);
      assert HeaderAt(h, areas, w - 8) ==> HeaderWord(h, areas, w);
      assert Rd(m1, w) == Rd(m, w);
      assert Rd(m3, w) == Rd(m1, w);
    }
  }

  /** Copying into a block. */
  lemma RingAfterMove(m: Mem, h: Heap, first: int, areas: seq<Area>, obtained: seq<int>, returned: seq<int>,
                      d: int, src: int, n: int)
    requires Tiled(h, areas) && d in h && n <= h[d].size - HEADER && RingOk(m, first, areas, obtained, returned)
    ensures RingOk(Move(m, d + HEADER, src, n), first, areas, obtained, returned)
  {
    assert ChunkOk(h, areas, d);
    forall w | AreaWord(areas, w) ensures Rd(Move(m, d + HEADER, src, n), w) == Rd(m, w) {
      MoveReads(m, d + HEADER, src, n, w);
      if d <= w < d + h[d].size {
        PayloadNotArea(h, areas, areas, d, w);
      }
    }
    RingKept(m, Move(m, d + HEADER, src, n), first, areas, obtained, returned);
  }

  /** Writing a payload word. */
  lemma RingAfterWrite(m: Mem, h: Heap, first: int, areas: seq<Area>, obtained: seq<int>, returned: seq<int>,
                       c: int, w: int, v: int)
    requires Tiled(h, areas) && c in h && c <= w < c + h[c].size && RingOk(m, first, areas, obtained, returned)
    ensures RingOk(m[w := v], first, areas, obtained, returned)
  {
    assert ChunkOk(h, areas, c);
    PayloadNotArea(h, areas, areas, c, w);
    RingKept(m, m[w := v], first, areas, obtained, returned);
  }

  /** Preparing the first chunk of an area. */
  lemma MarkAreas(m: Mem, a: Area, all: seq<Area>)
    requires AreasOk(all) && a in all
    ensures AreasSame(m, BeEmpty(m, a.First()), all) && AreasSame(m, MarkArea(m, a), all)
  {
    assert AreaOk(a);
    forall w | AreaWord(all, w) ensures !(a.First() <= w < a.End() + HEADER) {
      if a.First() <= w < a.End() + HEADER {
        BodyNotArea(all, a, w);
      }
    }
  }

  /** Preparing the first chunk of the area that heads the ring. */
  lemma PrepareRing(m: Mem, first: int, areas: seq<Area>, obtained: seq<int>, returned: seq<int>, a: Area)
    requires RingOk(m, first, [a] + areas, obtained, returned) && AreasOk([a] + areas)
    ensures var m' := MarkArea(BeEmpty(m, a.First()), a);
      RingOk(m', first, [a] + areas, obtained, returned) && Unaligned(m', a.base) == Unaligned(m, a.base)
  {
    hide RingOk, AreasOk, AreasSame, MarkArea, BeEmpty, Unaligned;
    var m1 := BeEmpty(m, a.First());
    assert a in [a] + areas;
    MarkAreas(m, a, [a] + areas);
    MarkAreas(m1, a, [a] + areas);
    AreasTrans(m, m1, MarkArea(m1, a), [a] + areas);
    RingKept(m, MarkArea(m1, a), first, [a] + areas, obtained, returned);
    SameFields(m, MarkArea(m1, a), [a] + areas, a);
  }

  lemma RingFacts(m: Mem, first: int, areas: seq<Area>, obtained: seq<int>, returned: seq<int>)
    requires RingOk(m, first, areas, obtained, returned)
    ensures Linked(m, first, areas) && Accounted(m, areas, obtained, returned)
  {
  }

  lemma NoRing(m: Mem, obtained: seq<int>, returned: seq<int>)
    requires multiset(obtained) == multiset(returned)
    ensures RingOk(m, 0, [], obtained, returned)
  {
    assert Raws(m, []) == [];
  }

  /** From the last area the ring leads back to where it was entered, and from no other. */
  lemma AroundOrOn(m: Mem, first: int, areas: seq<Area>, k: nat)
    requires Linked(m, first, areas) && AreasOk(areas) && k < |areas|
    ensures k + 1 < |areas| ==> AreaNext(m, areas[k].base) == areas[k + 1].base
    ensures AreaNext(m, areas[k].base) == first <==> k + 1 == |areas|
    ensures AreaSize(m, areas[k].base) == areas[k].size
  {
    hide AreasOk;
    assert LinkedOn(m, areas[k], areas[NextAt(k, |areas|)]);
    if k + 1 < |areas| {
      BasesApart(areas, k + 1, 0);
    }
  }

  lemma RawsAt(m: Mem, areas: seq<Area>)
    ensures |Raws(m, areas)| == |areas|
    ensures forall i :: 0 <= i < |areas| ==> Raws(m, areas)[i] == Unaligned(m, areas[i].base)
  {
  }

  lemma AllReturned(m: Mem, areas: seq<Area>, obtained: seq<int>, returned: seq<int>)
    requires Accounted(m, areas, obtained, returned)
    ensures multiset(obtained) == multiset(returned + Raws(m, areas))
  {
  }

  lemma BinsAreas(m: Mem, m': Mem, areas: seq<Area>)
    requires AreasOk(areas) && forall w :: w >= 0 ==> Rd(m', w) == Rd(m, w)
    ensures AreasSame(m, m', areas)
  {
    forall w | AreaWord(areas, w) ensures w >= 0 {
      var a :| a in areas && a.base <= w < a.base + AREA_HEADER;
      AreaFields(areas, a);
    }
  }

  lemma FirstArea(m: Mem, first: int, areas: seq<Area>)
    requires Linked(m, first, areas) && AreasOk(areas)
    ensures first == 0 <==> areas == []
    ensures areas != [] ==> first == areas[0].base
  {
    if areas != [] {
      AreaFields(areas, areas[0]);
    }
  }

  // ----- adding an area

  lemma AreaFields(areas: seq<Area>, a: Area)
    requires AreasOk(areas) && a in areas
    ensures a.base > 0 && a.base % 64 == 0
  {
    assert AreaOk(a);
  }

  lemma BasesApart(areas: seq<Area>, i: int, j: int)
    requires AreasOk(areas) && 0 <= i < |areas| && 0 <= j < |areas| && i != j
    ensures areas[i].base + AREA_HEADER <= areas[j].base || areas[j].base + AREA_HEADER <= areas[i].base
  {
    assert areas[i] in areas && areas[j] in areas && AreaOk(areas[i]) && AreaOk(areas[j]);
    assert Apart(areas[if i < j then i else j], areas[if i < j then j else i]);
  }

  lemma GrownOk(areas: seq<Area>, a: Area)
    requires AreasOk(areas) && CanAdd(areas, a)
    ensures AreasOk([a] + areas)
  {
    var areas' := [a] + areas;
    forall i, j | 0 <= i < j < |areas'| ensures Apart(areas'[i], areas'[j]) {
      if i > 0 {
        assert Apart(areas[i - 1], areas[j - 1]);
      } else {
        assert areas[j - 1] in areas;
      }
    }
  }

  /** The header writes of NewArea (lines 200-215). */
  function NewHeader(m: Mem, x: int, first: int, size: int, raw: int): Mem {
    LinkArea(m[x + 24 := raw], x, first)[x + 16 := size]
  }

  /** Only headers of these areas may differ. */
  ghost predicate AreaWordsOnly(m: Mem, m': Mem, areas: seq<Area>) {
    forall w :: !AreaWord(areas, w) ==> Rd(m', w) == Rd(m, w)
  }

  /** What linking writes, seen from the neighbours of the new area. */
  ghost predicate HeaderAdded(m: Mem, m': Mem, x: int, next: int, last: int, size: int, raw: int) {
    && AreaNext(m', x) == next && AreaPrev(m', x) == last && AreaSize(m', x) == size && Unaligned(m', x) == raw
    && AreaPrev(m', next) == x && AreaNext(m', last) == x
    && forall w :: w !in {x, x + 8, x + 16, x + 24, next, last + 8} ==> Rd(m', w) == Rd(m, w)
  }

  lemma FirstHeaderWrites(m: Mem, x: int, size: int, raw: int)
    ensures HeaderAdded(m, NewHeader(m, x, 0, size, raw), x, x, x, size, raw)
  {
  }

  lemma NextHeaderWrites(m: Mem, x: int, first: int, last: int, size: int, raw: int)
    requires first != 0 && AreaPrev(m, first) == last && first != x && last != x
    requires x % 64 == 0 && first % 64 == 0 && last % 64 == 0
    ensures HeaderAdded(m, NewHeader(m, x, first, size, raw), x, first, last, size, raw)
  {
    var m0 := m[x + 24 := raw];
    var m1 := m0[x + 8 := first];
    var m2 := m1[x := last];
    var m3 := m2[first := x];
    assert AreaPrev(m1, first) == last && AreaNext(m2, x) == first && AreaPrev(m3, x) == last;
    assert NewHeader(m, x, first, size, raw) == m3[last + 8 := x][x + 16 := size];
  }

  /** The new area heads the ring. */
  lemma LinkAreaStep(m: Mem, first: int, areas: seq<Area>, obtained: seq<int>, returned: seq<int>, a: Area, raw: int)
    requires RingOk(m, first, areas, obtained, returned) && AreasOk(areas) && CanAdd(areas, a)
    ensures var m' := NewHeader(m, a.base, first, a.size, raw);
      && RingOk(m', a.base, [a] + areas, obtained + [raw], returned) && AreaWordsOnly(m, m', [a] + areas)
      && Unaligned(m', a.base) == raw
  {
    var n, areas' := |areas|, [a] + areas;
    var m' := NewHeader(m, a.base, first, a.size, raw);
    GrownOk(areas, a);
    hide NewHeader, AreasOk, CanAdd, AreaOk, Apart;
    AreaFields(areas', areas'[0]);
    if n == 0 {
      FirstHeaderWrites(m, a.base, a.size, raw);
    } else {
      assert LinkedOn(m, areas[n - 1], areas[NextAt(n - 1, n)]);
      AreaFields(areas', areas'[1]);
      AreaFields(areas', areas'[n]);
      BasesApart(areas', 0, 1);
      BasesApart(areas', 0, n);
      NextHeaderWrites(m, a.base, first, areas[n - 1].base, a.size, raw);
    }
    LinkedAfterAdding(m, m', first, areas, a, raw);
    RawsAfterAdding(m, m', first, areas, a, raw);
  }

  /** The neighbours of a new area in the ring: the first and the last, or itself. */
  ghost predicate HeadersAdded(m: Mem, m': Mem, areas: seq<Area>, a: Area, raw: int) {
    if areas == [] then HeaderAdded(m, m', a.base, a.base, a.base, a.size, raw)
    else HeaderAdded(m, m', a.base, areas[0].base, areas[|areas| - 1].base, a.size, raw)
  }

  /** The fields of an old area that linking does not write. */
  lemma KeptFieldsOf(m: Mem, m': Mem, areas: seq<Area>, a: Area, raw: int, i: int)
    requires AreasOk([a] + areas) && HeadersAdded(m, m', areas, a, raw) && 1 <= i <= |areas|
    ensures var b := areas[i - 1].base;
      && (i != 1 ==> AreaPrev(m', b) == AreaPrev(m, b)) && (i != |areas| ==> AreaNext(m', b) == AreaNext(m, b))
      && AreaSize(m', b) == AreaSize(m, b) && Unaligned(m', b) == Unaligned(m, b)
  {
    hide AreasOk;
    var n, areas' := |areas|, [a] + areas;
    BasesApart(areas', i, 0);
    if i != 1 {
      BasesApart(areas', i, 1);
    }
    if i != n {
      BasesApart(areas', i, n);
    }
  }

  lemma LinkedAfterAdding(m: Mem, m': Mem, first: int, areas: seq<Area>, a: Area, raw: int)
    requires Linked(m, first, areas) && AreasOk([a] + areas) && HeadersAdded(m, m', areas, a, raw)
    ensures Linked(m', a.base, [a] + areas) && AreaWordsOnly(m, m', [a] + areas)
  {
    var n, areas' := |areas|, [a] + areas;
    hide AreasOk;
    forall i | 0 <= i <= n ensures LinkedOn(m', areas'[i], areas'[NextAt(i, n + 1)]) {
      if 0 < i {
        assert LinkedOn(m, areas[i - 1], areas[NextAt(i - 1, n)]);
        KeptFieldsOf(m, m', areas, a, raw, i);
        if i < n {
          KeptFieldsOf(m, m', areas, a, raw, i + 1);
        }
      }
    }
    assert a in areas';
    assert n > 0 ==> areas[0] in areas' && areas[n - 1] in areas';
  }

  lemma RawsAfterAdding(m: Mem, m': Mem, first: int, areas: seq<Area>, a: Area, raw: int)
    requires AreasOk([a] + areas) && HeadersAdded(m, m', areas, a, raw)
    ensures Raws(m', [a] + areas) == [raw] + Raws(m, areas)
    ensures multiset([raw] + Raws(m, areas)) == multiset{raw} + multiset(Raws(m, areas))
  {
    var n, areas' := |areas|, [a] + areas;
    hide AreasOk;
    forall i | 0 <= i < n ensures Unaligned(m', areas[i].base) == Unaligned(m, areas[i].base) {
      KeptFieldsOf(m, m', areas, a, raw, i + 1);
    }
  }
  // ----- dropping an area

  function PrevAt(i: int, n: int): int {
    if i > 0 then i - 1 else n - 1
  }

  /** Where element `j` of `Dropped(areas, k)` stood before. */
  function Stood(j: int, k: int, n: int): int {
    if k + 1 + j < n then k + 1 + j else k + 1 + j - n
  }

  lemma DroppedAt(areas: seq<Area>, k: nat, j: nat)
    requires k < |areas| && j < |areas| - 1
    ensures Dropped(areas, k)[j] == areas[Stood(j, k, |areas|)] && Stood(j, k, |areas|) != k
  {
  }

  ghost predicate HeaderRemoved(m: Mem, m': Mem, prev: int, next: int) {
    && AreaNext(m', prev) == next && AreaPrev(m', next) == prev
    && forall w :: w !in {prev + 8, next} ==> Rd(m', w) == Rd(m, w)
  }

  lemma UnlinkWrites(m: Mem, x: int, prev: int, next: int)
    requires AreaPrev(m, x) == prev && AreaNext(m, x) == next && x != next && prev % 64 == 0 && next % 64 == 0
    requires x % 64 == 0
    ensures HeaderRemoved(m, UnlinkArea(m, x), prev, next)
  {
  }

  /** The fields of an area that unlinking area `k` does not write. */
  lemma RemainingFields(m: Mem, m': Mem, areas: seq<Area>, k: nat, i: nat)
    requires AreasOk(areas) && k < |areas| && i < |areas|
    requires HeaderRemoved(m, m', areas[PrevAt(k, |areas|)].base, areas[NextAt(k, |areas|)].base)
    ensures var b := areas[i].base;
      && (i != NextAt(k, |areas|) ==> AreaPrev(m', b) == AreaPrev(m, b))
      && (i != PrevAt(k, |areas|) ==> AreaNext(m', b) == AreaNext(m, b))
      && AreaSize(m', b) == AreaSize(m, b) && Unaligned(m', b) == Unaligned(m, b)
  {
    hide AreasOk;
    if i != NextAt(k, |areas|) {
      BasesApart(areas, i, NextAt(k, |areas|));
    }
    if i != PrevAt(k, |areas|) {
      BasesApart(areas, i, PrevAt(k, |areas|));
    }
  }

  lemma LinkedAfterDropping(m: Mem, m': Mem, first: int, areas: seq<Area>, k: nat)
    requires Linked(m, first, areas) && AreasOk(areas) && k < |areas| && |areas| > 1
    requires HeaderRemoved(m, m', areas[PrevAt(k, |areas|)].base, areas[NextAt(k, |areas|)].base)
    ensures Linked(m', areas[NextAt(k, |areas|)].base, Dropped(areas, k))
  {
    var n, d := |areas|, Dropped(areas, k);
    hide AreasOk, HeaderRemoved, Dropped;
    assert |d| == n - 1 by { DroppedOk(areas, k); LengthOfDropped(areas, k); }
    forall j | 0 <= j < n - 1 ensures LinkedOn(m', d[j], d[NextAt(j, n - 1)]) {
      var i := Stood(j, k, n);
      DroppedAt(areas, k, j);
      DroppedAt(areas, k, NextAt(j, n - 1));
      assert LinkedOn(m, areas[i], areas[NextAt(i, n)]);
      RemainingFields(m, m', areas, k, i);
      if j < n - 2 {
        RemainingFields(m, m', areas, k, NextAt(i, n));
      } else {
        RemovedLinks(m, m', areas, k);
      }
    }
    DroppedAt(areas, k, 0);
  }

  lemma LengthOfDropped(areas: seq<Area>, k: nat)
    requires k < |areas|
    ensures |Dropped(areas, k)| == |areas| - 1
  {
  }

  lemma RemovedLinks(m: Mem, m': Mem, areas: seq<Area>, k: nat)
    requires k < |areas|
    requires HeaderRemoved(m, m', areas[PrevAt(k, |areas|)].base, areas[NextAt(k, |areas|)].base)
    ensures AreaNext(m', areas[PrevAt(k, |areas|)].base) == areas[NextAt(k, |areas|)].base
    ensures AreaPrev(m', areas[NextAt(k, |areas|)].base) == areas[PrevAt(k, |areas|)].base
  {
  }

  /** One area's pointer goes from the areas to the account of those returned. */
  lemma RawsAfterDropping(m: Mem, m': Mem, areas: seq<Area>, k: nat, obtained: seq<int>, returned: seq<int>)
    requires AreasOk(areas) && k < |areas| && Accounted(m, areas, obtained, returned)
    requires forall i :: 0 <= i < |areas| ==> Unaligned(m', areas[i].base) == Unaligned(m, areas[i].base)
    ensures Accounted(m', Dropped(areas, k), obtained, returned + [Unaligned(m, areas[k].base)])
  {
    var r, raw := Raws(m, areas), Unaligned(m, areas[k].base);
    RawsDropped(m, m', areas, k);
    SplitCounts(r, k);
    assert multiset(returned + [raw]) == multiset(returned) + multiset{raw};
    hide Raws, Dropped;
  }

  lemma RawsDropped(m: Mem, m': Mem, areas: seq<Area>, k: nat)
    requires k < |areas|
    requires forall i :: 0 <= i < |areas| ==> Unaligned(m', areas[i].base) == Unaligned(m, areas[i].base)
    ensures |Raws(m, areas)| == |areas| && Raws(m, areas)[k] == Unaligned(m, areas[k].base)
    ensures Raws(m', Dropped(areas, k)) == Raws(m, areas)[k + 1..] + Raws(m, areas)[..k]
  {
  }

  lemma SplitCounts(r: seq<int>, k: nat)
    requires k < |r|
    ensures multiset(r) == multiset(r[k + 1..] + r[..k]) + multiset{r[k]}
  {
    assert r == r[..k] + ([r[k]] + r[k + 1..]);
  }

  /** Area `k` is alone in the ring exactly when it leads on to itself. */
  lemma AloneLink(m: Mem, first: int, areas: seq<Area>, k: nat)
    requires Linked(m, first, areas) && AreasOk(areas) && k < |areas|
    ensures AreaNext(m, areas[k].base) == areas[NextAt(k, |areas|)].base
    ensures AreaPrev(m, areas[k].base) == areas[PrevAt(k, |areas|)].base
    ensures AreaNext(m, areas[k].base) == areas[k].base <==> |areas| == 1
  {
    var n, p := |areas|, PrevAt(k, |areas|);
    hide AreasOk;
    assert LinkedOn(m, areas[k], areas[NextAt(k, n)]) && LinkedOn(m, areas[p], areas[NextAt(p, n)]);
    if n > 1 {
      BasesApart(areas, k, NextAt(k, n));
    }
  }

  /** Unlinking leaves the ring of the other areas, entered at the one after. */
  lemma UnlinkAreaStep(m: Mem, first: int, areas: seq<Area>, obtained: seq<int>, returned: seq<int>, k: nat)
    requires RingOk(m, first, areas, obtained, returned) && AreasOk(areas) && k < |areas|
    ensures AreaNext(m, areas[k].base) == areas[k].base <==> |areas| == 1
    ensures var x := areas[k].base;
      if |areas| == 1 then RingOk(m, 0, Dropped(areas, k), obtained, returned + [Unaligned(m, x)])
      else
        && RingOk(UnlinkArea(m, x), AreaNext(m, x), Dropped(areas, k), obtained, returned + [Unaligned(m, x)])
        && AreaWordsOnly(m, UnlinkArea(m, x), Dropped(areas, k))
  {
    var n, x := |areas|, areas[k].base;
    hide AreasOk, UnlinkArea, Accounted;
    AloneLink(m, first, areas, k);
    if n == 1 {
      RawsAfterDropping(m, m, areas, k, obtained, returned);
    } else {
      var prev, next := areas[PrevAt(k, n)], areas[NextAt(k, n)];
      BasesApart(areas, k, NextAt(k, n));
      AreaFields(areas, areas[k]);
      AreaFields(areas, prev);
      AreaFields(areas, next);
      UnlinkWrites(m, x, prev.base, next.base);
      LinkedAfterDropping(m, UnlinkArea(m, x), first, areas, k);
      forall i | 0 <= i < n ensures Unaligned(UnlinkArea(m, x), areas[i].base) == Unaligned(m, areas[i].base) {
        RemainingFields(m, UnlinkArea(m, x), areas, k, i);
      }
      RawsAfterDropping(m, UnlinkArea(m, x), areas, k, obtained, returned);
      DroppedAt(areas, k, 0);
      DroppedAt(areas, k, n - 2);
      RemovedWords(m, UnlinkArea(m, x), prev, next, Dropped(areas, k));
    }
  }

  lemma RemovedWords(m: Mem, m': Mem, prev: Area, next: Area, areas: seq<Area>)
    requires HeaderRemoved(m, m', prev.base, next.base) && prev in areas && next in areas
    ensures AreaWordsOnly(m, m', areas)
  {
  }

  // ----- writes to area headers leave the pool alone

  lemma AreaWordsKeep(m: Mem, m': Mem, blocks: seq<nat>, areas: seq<Area>, all: seq<Area>, h: Heap, f: Free,
                      lists: Lists)
    requires PoolOk(m, blocks, areas, h, f, lists) && AreasOk(all) && (forall a :: a in areas ==> a in all)
    requires AreaWordsOnly(m, m', all)
    ensures PoolOk(m', blocks, areas, h, f, lists) && SamePayloads(m, m', Live(h))
  {
    forall w | w < 0 || HeaderWord(h, areas, w) ensures Rd(m', w) == Rd(m, w) {
      HeaderNotArea(h, areas, all, w);
    }
    PayloadWrite(m, m', blocks, areas, h, f, lists);
    forall c, w | c in Live(h) && c + HEADER <= w < c + Live(h)[c] ensures Rd(m', w) == Rd(m, w) {
      assert ChunkOk(h, areas, c);
      PayloadNotArea(h, areas, all, c, w);
    }
    hide PoolOk;
  }

  /** Outside the pool object, only chunk headers, end markers and area headers may differ. */
  ghost predicate MetaOnly(m: Mem, m': Mem, h: Heap, areas: seq<Area>) {
    forall w :: w >= 0 && !HeaderWord(h, areas, w) && !AreaWord(areas, w) ==> Rd(m', w) == Rd(m, w)
  }

  lemma HeadersMeta(m: Mem, m': Mem, h: Heap, areas: seq<Area>)
    requires HeadersOnly(m, m', h, areas)
    ensures MetaOnly(m, m', h, areas)
  {
  }

  lemma MetaTrans(m: Mem, m1: Mem, m2: Mem, h: Heap, areas: seq<Area>)
    requires HeadersOnly(m, m1, h, areas) && MetaOnly(m1, m2, h, areas)
    ensures MetaOnly(m, m2, h, areas)
  {
  }

  lemma AreaWordsMeta(m: Mem, m': Mem, h: Heap, areas: seq<Area>, sub: seq<Area>)
    requires AreaWordsOnly(m, m', sub) && forall a :: a in sub ==> a in areas
    ensures MetaOnly(m, m', h, areas)
  {
    assert forall w :: AreaWord(sub, w) ==> AreaWord(areas, w);
  }

  lemma MetaPayloads(m: Mem, m': Mem, h: Heap, areas: seq<Area>)
    requires Tiled(h, areas) && MetaOnly(m, m', h, areas)
    ensures SamePayloads(m, m', Live(h))
  {
    forall c, w | c in Live(h) && c + HEADER <= w < c + Live(h)[c] ensures Rd(m', w) == Rd(m, w) {
      assert ChunkOk(h, areas, c);
      PayloadOutside(h, areas, c, w);
      PayloadNotArea(h, areas, areas, c, w);
    }
  }
}
