/**
 The bin search of `Alloc` (common/SC_AllocPool.cpp) against a plain scan.
 */
module BestFit {
  import opened Words
  import opened Sizes
  import opened Links
  import opened Bins
  import opened FreeIndex

  datatype Fit = NoFit | Exact(chunk: int) | Bigger(chunk: int)

  /** What a scan of all free chunks for the smallest that fits would find. */
  ghost predicate IsBestFit(f: Free, size: int, c: int) {
    c in f && f[c] >= size && forall d :: d in f && f[d] >= size ==> f[c] <= f[d]
  }

  ghost predicate IsSearchResult(f: Free, size: int, r: Fit) {
    match r
    case NoFit => forall d :: d in f ==> f[d] < size
    case Exact(c) => IsBestFit(f, size, c) && f[c] < size + MIN_ALLOC
    case Bigger(c) => IsBestFit(f, size, c) && f[c] >= size + MIN_ALLOC
  }

  /** No chunk in a bin below `i` is large enough. */
  ghost predicate NoFitBelow(lists: Lists, f: Free, size: int, i: int) {
    forall j, k :: 0 <= j < i && j < |lists| && 0 <= k < |lists[j]| && lists[j][k] in f ==> f[lists[j][k]] < size
  }

  lemma NoFitInLowerBins(lists: Lists, f: Free, size: nat)
    requires ListsOk(lists, f)
    ensures NoFitBelow(lists, f, size, BinIndex(size))
  {
    forall j, k | 0 <= j < BinIndex(size) && j < |lists| && 0 <= k < |lists[j]| && lists[j][k] in f
      ensures f[lists[j][k]] < size
    {
      if f[lists[j][k]] >= size {
        BinIndexMonotone(size, f[lists[j][k]]);
      }
    }
  }

  lemma NoFitExtends(lists: Lists, f: Free, size: int, i: nat, i': nat)
    requires NoFitBelow(lists, f, size, i) && i <= i' && |lists| == NUM_BINS
    requires forall j :: i <= j < i' && j < NUM_BINS ==> lists[j] == []
    ensures NoFitBelow(lists, f, size, i')
  {
  }

  lemma NoFitInBin(lists: Lists, f: Free, size: int, i: nat)
    requires NoFitBelow(lists, f, size, i) && i < |lists|
    requires forall j :: 0 <= j < |lists[i]| ==> lists[i][j] in f && f[lists[i][j]] < size
    ensures NoFitBelow(lists, f, size, i + 1)
  {
  }

  lemma NoFitAnywhere(lists: Lists, f: Free, size: int)
    requires ListsOk(lists, f) && NoFitBelow(lists, f, size, NUM_BINS)
    ensures forall d :: d in f ==> f[d] < size
  {
    forall d | d in f ensures f[d] < size {
      var i, k := Locate(lists, f, d);
    }
  }

  /** The first chunk that fits, searching bins upwards and each bin from its tail, is a best fit. */
  lemma FirstFitIsBest(lists: Lists, f: Free, size: nat, i: nat, k: nat)
    requires ListsOk(lists, f) && i < NUM_BINS && k < |lists[i]|
    requires NoFitBelow(lists, f, size, i)
    requires forall j :: k < j < |lists[i]| ==> f[lists[i][j]] < size
    requires f[lists[i][k]] >= size
    ensures IsBestFit(f, size, lists[i][k])
  {
    var c := lists[i][k];
    forall d | d in f && f[d] >= size ensures f[c] <= f[d] {
      var j, p := Locate(lists, f, d);
      if j == i {
        assert Descending(lists[i], f);
      } else if f[d] < f[c] {
        BinIndexMonotone(f[d], f[c]);
      }
    }
  }

  /** A chunk in one of the two bins a small request looks at first is an exact fit. */
  lemma SmallFit(s: nat, t: nat)
    requires s % ALIGN == 0 && t % ALIGN == 0 && BinIndex(s) < MAX_SMALL_BIN
    requires BinIndex(s) <= BinIndex(t) <= BinIndex(s) + 1
    ensures s <= t < s + MIN_ALLOC
  {
    hide BinIndex;
    SmallBin(s);
    SmallBin(t);
    NextSlot(s, t);
  }

  lemma NextSlot(s: nat, t: nat)
    requires s % 64 == 0 && t % 64 == 0 && s / 16 <= t / 16 <= s / 16 + 1
    ensures s == t
  {
    assert s == 64 * (s / 64) && t == 64 * (t / 64);
  }

  lemma TailNode(m: Mem, lists: Lists, i: nat)
    requires Rings(m, lists) && i < NUM_BINS
    ensures |lists| == NUM_BINS
    ensures var l := lists[i]; Prev(m, BinAddr(i)) == Loop(BinAddr(i), l)[|l|]
  {
    var b, l := BinAddr(i), lists[i];
    assert Ring(m, b, l);
    assert Prev(m, Loop(b, l)[|l| + 1]) == Loop(b, l)[|l|];
  }

  lemma StepBack(m: Mem, lists: Lists, f: Free, i: nat, k: nat)
    requires ListsOk(lists, f) && Rings(m, lists) && Sized(m, f) && i < NUM_BINS && 1 <= k <= |lists[i]|
    ensures var s := Loop(BinAddr(i), lists[i]);
      && s[k] == lists[i][k - 1] && s[k] in f && SizeOf(Tag(m, s[k])) == f[s[k]] && 0 <= f[s[k]] < MAX_SIZE
      && f[s[k]] % ALIGN == 0 && Prev(m, s[k]) == s[k - 1] && s[k] != BinAddr(i)
  {
    hide ListsOk, Prev, SizeOf;
    var b, l := BinAddr(i), lists[i];
    assert Ring(m, b, l);
    assert Prev(m, Loop(b, l)[k]) == Loop(b, l)[k - 1];
    assert l[k - 1] in l;
    Member(lists, f, i, k - 1);
  }

  /** The fit test of the search, on the truncated difference. */
  predicate Passes(candidate: int, size: nat) { Int32(candidate - size) >= 0 }

  /** Chunk `c` of bin `index` passes the fit test, and `r` says whether it leaves a remainder. */
  ghost predicate IsHit(lists: Lists, f: Free, size: nat, index: nat, r: Fit)
    requires index < |lists| && !r.NoFit?
  {
    && r.chunk in lists[index] && r.chunk in f && Passes(f[r.chunk], size)
    && (r.Bigger? <==> Int32(f[r.chunk] - size) >= MIN_ALLOC)
  }

  ghost predicate NoHit(l: seq<int>, f: Free, size: nat) {
    forall j :: 0 <= j < |l| && l[j] in f ==> !Passes(f[l[j]], size)
  }

  lemma Hit(lists: Lists, f: Free, size: nat, index: nat, k: nat, r: Fit)
    requires index < |lists| && k < |lists[index]| && !r.NoFit? && r.chunk == lists[index][k] && r.chunk in f
    requires Int32(f[r.chunk] - size) >= if r.Bigger? then MIN_ALLOC else 0
    requires r.Exact? ==> Int32(f[r.chunk] - size) < MIN_ALLOC
    ensures IsHit(lists, f, size, index, r)
  {
    hide Int32;
  }

  /** A hit on a chunk that does fit, with nothing that fits below, is a best fit. */
  lemma HitIsBest(lists: Lists, f: Free, size: nat, index: nat, k: nat, r: Fit)
    requires ListsOk(lists, f) && index < NUM_BINS && k < |lists[index]| && NoFitBelow(lists, f, size, index)
    requires !r.NoFit? && IsHit(lists, f, size, index, r) && r.chunk == lists[index][k]
    requires forall j :: k < j < |lists[index]| ==> f[lists[index][j]] < size
    ensures f[r.chunk] >= size ==> IsSearchResult(f, size, r)
    ensures size < MAX_SIZE ==> f[r.chunk] >= size
  {
    hide NoFitBelow, IsBestFit, Descending, BinIndex, Complete, InPlace;
    assert SlotOk(r.chunk, f[r.chunk]);
    FitPasses(f[r.chunk], size);
    if f[r.chunk] >= size {
      FirstFitIsBest(lists, f, size, index, k);
    }
  }

  /**
   The scan of one bin, from its tail: stops at the first chunk that passes the fit test.
   The two occurrences in the search differ only in what they do next.
   */
  method ScanBin(mem: Mem, size: nat, index: nat, ghost lists: Lists, ghost f: Free) returns (r: Fit)
    requires ListsOk(lists, f) && Rings(mem, lists) && Sized(mem, f) && index < NUM_BINS
    requires NoFitBelow(lists, f, size, index)
    ensures |lists| == NUM_BINS
    ensures r.NoFit? ==> NoFitBelow(lists, f, size, index + 1) && NoHit(lists[index], f, size)
    ensures !r.NoFit? ==> lists[index] != [] && IsHit(lists, f, size, index, r)
    ensures !r.NoFit? && f[r.chunk] >= size ==> IsSearchResult(f, size, r)
    ensures !r.NoFit? && size < MAX_SIZE ==> f[r.chunk] >= size
  {
    hide ListsOk, Rings, Sized, IsBestFit, NoFitBelow, Int32, SizeOf, Tag, Prev, Loop, BinAddr, IsSearchResult, IsHit;
    var bin := BinAddr(index);
    TailNode(mem, lists, index);
    ghost var k := |lists[index]|;
    var candidate := Prev(mem, bin);
    while candidate != bin
      invariant 0 <= k <= |lists[index]| && candidate == Loop(bin, lists[index])[k]
      invariant forall j :: k <= j < |lists[index]| ==>
        lists[index][j] in f && f[lists[index][j]] < size && !Passes(f[lists[index][j]], size)
      decreases k
    {
      StepBack(mem, lists, f, index, k);
      var candidateSize := SizeOf(Tag(mem, candidate));
      var remainderSize := Int32(candidateSize - size);
      FitPasses(candidateSize, size);
      if remainderSize >= MIN_ALLOC {
        Hit(lists, f, size, index, k - 1, Bigger(candidate));
        HitIsBest(lists, f, size, index, k - 1, Bigger(candidate));
        return Bigger(candidate);
      } else if remainderSize >= 0 {
        Hit(lists, f, size, index, k - 1, Exact(candidate));
        HitIsBest(lists, f, size, index, k - 1, Exact(candidate));
        return Exact(candidate);
      }
      candidate := Prev(mem, candidate);
      k := k - 1;
    }
    if k > 0 {
      StepBack(mem, lists, f, index, k);
    }
    NoFitInBin(lists, f, size, index);
    return NoFit;
  }

  /**
   No chunk of the last bin passes the fit test without fitting.  Below 2^31 this is
   always so; from 2^31 on the missing bytes, less one, must be below 2^31 modulo 2^32.
   */
  ghost predicate TestsTruly(f: Free, size: nat) {
    forall d :: d in f && f[d] >= 0 && BinIndex(f[d]) == NUM_BINS - 1 && f[d] < size ==>
      (size - f[d] - 1) % WORD32 < MAX_SIZE
  }

  lemma TrulyBelow(f: Free, size: nat)
    requires size < MAX_SIZE
    ensures TestsTruly(f, size)
  {
  }

  /** Where no chunk of the last bin passes, a large request is tested truly. */
  lemma NoHitIsTrue(lists: Lists, f: Free, size: nat)
    requires ListsOk(lists, f) && size >= MAX_SIZE && NoHit(lists[NUM_BINS - 1], f, size)
    ensures TestsTruly(f, size)
  {
    forall d | d in f && f[d] >= 0 && BinIndex(f[d]) == NUM_BINS - 1 && f[d] < size
      ensures (size - f[d] - 1) % WORD32 < MAX_SIZE
    {
      var i, k := Locate(lists, f, d);
      assert SlotOk(d, f[d]);
      FitTestExact(f[d], size);
    }
  }

  /** A chunk of the last bin that passes for a large request is a false hit. */
  lemma HitIsFalse(lists: Lists, f: Free, size: nat, r: Fit)
    requires ListsOk(lists, f) && size >= MAX_SIZE && !r.NoFit? && IsHit(lists, f, size, NUM_BINS - 1, r)
    ensures r.chunk in f && !TestsTruly(f, size) && !IsSearchResult(f, size, r) && f[r.chunk] < size
  {
    var d := r.chunk;
    assert SlotOk(d, f[d]);
    Listed(lists, f, NUM_BINS - 1, d);
    FitTestExact(f[d], size);
  }

  /** What the bin search may return: the plain scan's result if and only if the test is true. */
  ghost predicate Found(f: Free, size: nat, r: Fit) {
    && (IsSearchResult(f, size, r) <==> TestsTruly(f, size))
    && (!TestsTruly(f, size) ==> !r.NoFit? && r.chunk in f && f[r.chunk] < size)
  }

  lemma HitFound(lists: Lists, f: Free, size: nat, index: nat, r: Fit)
    requires ListsOk(lists, f) && index < NUM_BINS && !r.NoFit? && IsHit(lists, f, size, index, r)
    requires size >= MAX_SIZE ==> index == NUM_BINS - 1
    requires f[r.chunk] >= size ==> IsSearchResult(f, size, r)
    requires size < MAX_SIZE ==> f[r.chunk] >= size
    ensures Found(f, size, r)
  {
    hide ListsOk, IsHit, IsSearchResult, TestsTruly;
    if size < MAX_SIZE {
      TrulyBelow(f, size);
    } else {
      HitIsFalse(lists, f, size, r);
    }
  }

  lemma NothingFound(lists: Lists, f: Free, size: nat)
    requires ListsOk(lists, f) && NoFitBelow(lists, f, size, NUM_BINS)
    requires size >= MAX_SIZE ==> NoHit(lists[NUM_BINS - 1], f, size)
    ensures Found(f, size, NoFit)
  {
    NoFitAnywhere(lists, f, size);
    if size < MAX_SIZE {
      TrulyBelow(f, size);
    } else {
      NoHitIsTrue(lists, f, size);
    }
    hide ListsOk, NoFitBelow, TestsTruly, NoHit;
  }

  /** Lines 307-355: the chunk for a request of `size` bytes, if some free chunk fits. */
  method Search(mem: Mem, blocks: seq<nat>, size: nat, ghost lists: Lists, ghost f: Free) returns (r: Fit)
    requires IndexOk(mem, blocks, lists, f) && size % ALIGN == 0
    ensures Found(f, size, r)
  {
    hide ListsOk, Rings, Sized, NoFitBelow, Found, IsSearchResult, IsHit, NoHit;
    var index: int := BinIndex(size);
    BinIndexMonotone(size, size);
    NoFitInLowerBins(lists, f, size);
    var bin := BinAddr(index);
    if index < MAX_SMALL_BIN {
      var candidate := Prev(mem, bin);
      ghost var i := index;
      TailNode(mem, lists, index);
      BinEmpty(mem, lists, index);
      if candidate == bin {
        bin := BinAddr(index + 1);
        candidate := Prev(mem, bin);
        TailNode(mem, lists, index + 1);
        BinEmpty(mem, lists, index + 1);
        NoFitExtends(lists, f, size, index, index + 1);
        i := index + 1;
      }
      if candidate != bin {
        SmallTail(mem, lists, f, size, i);
        SmallFound(f, size, Exact(candidate));
        return Exact(candidate);
      }
      NoFitExtends(lists, f, size, index, index + 2);
      index := index + 2;
    } else {
      var first := ScanBin(mem, size, index, lists, f);
      if first.Exact? {
        HitFound(lists, f, size, index, first);
        return first;
      }
      if first.Bigger? {
        index := index - 1;
      }
      index := index + 1;
    }
    ghost var from := index;
    index := NextFullBin(blocks, index);
    while index >= 0
      invariant NoFitBelow(lists, f, size, from) && 0 <= from <= NUM_BINS && -1 <= index < NUM_BINS
      invariant size >= MAX_SIZE ==> from == NUM_BINS - 1 || NoHit(lists[NUM_BINS - 1], f, size)
      invariant index >= 0 ==> index >= from && forall j: nat :: from <= j < index ==> !BinBit(blocks, j)
      invariant index < 0 ==> forall j: nat :: from <= j < NUM_BINS ==> !BinBit(blocks, j)
      decreases if index < 0 then 0 else NUM_BINS - index
    {
      EmptyBelow(blocks, lists, from, index);
      NoFitExtends(lists, f, size, from, index);
      r := ScanBin(mem, size, index, lists, f);
      if !r.NoFit? {
        HitFound(lists, f, size, index, r);
        return;
      }
      from := index + 1;
      index := NextFullBin(blocks, index + 1);
    }
    EmptyBelow(blocks, lists, from, NUM_BINS);
    NoFitExtends(lists, f, size, from, NUM_BINS);
    EmptyBin(lists, f, size, from);
    NothingFound(lists, f, size);
    return NoFit;
  }

  lemma SmallFound(f: Free, size: nat, r: Fit)
    requires IsSearchResult(f, size, r) && BinIndex(size) < MAX_SMALL_BIN
    ensures Found(f, size, r)
  {
    hide IsSearchResult;
    BinIndexIsTable(size);
    TrulyBelow(f, size);
  }

  lemma EmptyBin(lists: Lists, f: Free, size: nat, from: nat)
    requires |lists| == NUM_BINS
    requires forall j :: from <= j < NUM_BINS ==> lists[j] == []
    ensures from == NUM_BINS - 1 ==> NoHit(lists[NUM_BINS - 1], f, size)
  {
  }

  lemma EmptyBelow(blocks: seq<nat>, lists: Lists, from: nat, to: nat)
    requires Mapped(blocks, lists) && to <= NUM_BINS
    requires forall j: nat :: from <= j < to ==> !BinBit(blocks, j)
    ensures forall j :: from <= j < to && j < NUM_BINS ==> lists[j] == []
  {
    forall j | from <= j < to && j < NUM_BINS ensures lists[j] == [] {
      assert !BinBit(blocks, j);
    }
  }

  lemma SmallTail(m: Mem, lists: Lists, f: Free, size: nat, i: nat)
    requires ListsOk(lists, f) && Rings(m, lists) && Sized(m, f) && size % ALIGN == 0
    requires BinIndex(size) < MAX_SMALL_BIN && BinIndex(size) <= i <= BinIndex(size) + 1 && i < NUM_BINS
    requires NoFitBelow(lists, f, size, i) && lists[i] != []
    ensures IsSearchResult(f, size, Exact(Loop(BinAddr(i), lists[i])[|lists[i]|]))
  {
    var k := |lists[i]|;
    StepBack(m, lists, f, i, k);
    SmallFit(size, f[lists[i][k - 1]]);
    FirstFitIsBest(lists, f, size, i, k - 1);
  }
}
