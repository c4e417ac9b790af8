/**
 The read-only walks over the bins: `TotalFree` and `LargestFreeChunk`.
 */
module Queries {
  import opened Words
  import opened Sizes
  import opened Links
  import opened Bins
  import opened FreeIndex
  import opened BestFit
  import opened Conservation

  /** The chunks a walk over the bins has not met yet at position `k` of bin `i`. */
  ghost function Unseen(lists: Lists, f: Free, i: nat, k: nat): map<int, int>
    requires i < |lists| ==> k <= |lists[i]|
  {
    map c | c in f && f[c] >= 0 && (BinIndex(f[c]) > i || (BinIndex(f[c]) == i && i < |lists|
      && c in lists[i][..k])) :: f[c]
  }

  lemma UnseenAll(lists: Lists, f: Free)
    requires ListsOk(lists, f)
    ensures Unseen(lists, f, 0, |lists[0]|) == f
  {
    forall c | c in f ensures c in Unseen(lists, f, 0, |lists[0]|) {
      assert lists[0][..|lists[0]|] == lists[0];
      assert SlotOk(c, f[c]);
    }
  }

  lemma UnseenNone(lists: Lists, f: Free)
    requires ListsOk(lists, f)
    ensures Unseen(lists, f, NUM_BINS, 0) == map[]
  {
    BinsBelow(f, lists);
    forall c | c in f ensures c !in Unseen(lists, f, NUM_BINS, 0) {
      assert BinIndex(f[c]) < NUM_BINS;
    }
  }

  lemma BinsBelow(f: Free, lists: Lists)
    requires ListsOk(lists, f)
    ensures forall c :: c in f ==> f[c] >= 0 && BinIndex(f[c]) < NUM_BINS && c in lists[BinIndex(f[c])]
  {
  }

  lemma UnseenNextBin(lists: Lists, f: Free, i: nat)
    requires ListsOk(lists, f) && i < NUM_BINS
    ensures Unseen(lists, f, i, 0) == Unseen(lists, f, i + 1, if i + 1 < NUM_BINS then |lists[i + 1]| else 0)
  {
    BinsBelow(f, lists);
    var u, v := Unseen(lists, f, i, 0), Unseen(lists, f, i + 1, if i + 1 < NUM_BINS then |lists[i + 1]| else 0);
    if i + 1 < NUM_BINS {
      assert lists[i + 1][..|lists[i + 1]|] == lists[i + 1];
    }
    forall c | c in f ensures c in u <==> c in v {
      assert BinIndex(f[c]) < NUM_BINS;
    }
  }

  lemma UnseenStep(lists: Lists, f: Free, i: nat, k: nat)
    requires ListsOk(lists, f) && i < NUM_BINS && 1 <= k <= |lists[i]| && Distinct(BinAddr(i), lists[i])
    ensures var c := lists[i][k - 1];
      c in Unseen(lists, f, i, k) && Unseen(lists, f, i, k) - {c} == Unseen(lists, f, i, k - 1)
  {
    var l := lists[i];
    assert l[..k] == l[..k - 1] + [l[k - 1]];
    assert l[k - 1] !in l[..k - 1];
  }

  method TotalFree(mem: Mem, ghost blocks: seq<nat>, ghost lists: Lists, ghost f: Free) returns (total: int)
    requires IndexOk(mem, blocks, lists, f)
    ensures total == MapSum(f)
  {
    hide ListsOk, Rings, Sized, Mapped, Unseen, Loop, Prev, SizeOf, Tag, MapSum;
    TailNode(mem, lists, 0);
    total := 0;
    UnseenAll(lists, f);
    for i := 0 to NUM_BINS
      invariant total + MapSum(Unseen(lists, f, i, if i < NUM_BINS then |lists[i]| else 0)) == MapSum(f)
    {
      var bin := BinAddr(i);
      ghost var k := |lists[i]|;
      TailNode(mem, lists, i);
      BinEmpty(mem, lists, i);
      if Prev(mem, bin) != bin {
        var candidate := Prev(mem, bin);
        while candidate != bin
          invariant 0 <= k <= |lists[i]| && candidate == Loop(bin, lists[i])[k]
          invariant total + MapSum(Unseen(lists, f, i, k)) == MapSum(f)
          decreases k
        {
          StepBack(mem, lists, f, i, k);
          RingDistinct(mem, lists, i);
          UnseenStep(lists, f, i, k);
          MapSumRemove(Unseen(lists, f, i, k), lists[i][k - 1]);
          UnseenValue(lists, f, i, k, lists[i][k - 1]);
          total := total + SizeOf(Tag(mem, candidate));
          candidate := Prev(mem, candidate);
          k := k - 1;
        }
        if k > 0 {
          StepBack(mem, lists, f, i, k);
        }
      }
      UnseenNextBin(lists, f, i);
    }
    UnseenNone(lists, f);
    MapSumNone();
  }

  lemma RingDistinct(m: Mem, lists: Lists, i: nat)
    requires Rings(m, lists) && i < NUM_BINS
    ensures Distinct(BinAddr(i), lists[i])
  {
    assert Ring(m, BinAddr(i), lists[i]);
  }

  lemma UnseenValue(lists: Lists, f: Free, i: nat, k: nat, c: int)
    requires i < |lists| && k <= |lists[i]| && c in Unseen(lists, f, i, k)
    ensures c in f && Unseen(lists, f, i, k)[c] == f[c]
  {
  }

  /** `s` is the size of a largest free chunk. */
  ghost predicate IsLargest(f: Free, s: int) {
    (exists c :: c in f && f[c] == s) && forall d :: d in f ==> f[d] <= s
  }

  /** The topmost set bit of the bitmap is the topmost non-empty bin. */
  lemma TopBin(blocks: seq<nat>, lists: Lists, word: nat)
    requires Mapped(blocks, lists) && word < 4 && blocks[word] != 0
    requires forall w :: word < w < 4 ==> blocks[w] == 0
    ensures var i := word * 32 + (NumBits(blocks[word]) - 1);
      && word * 32 <= i < NUM_BINS && lists[i] != [] && forall j :: i < j < NUM_BINS ==> lists[j] == []
  {
    var b := blocks[word];
    TopBit(b);
    TopInWord(b, NumBits(b) - 1);
    var i: nat := word * 32 + (NumBits(b) - 1);
    assert BinBit(blocks, i);
    forall j: nat | i < j < NUM_BINS ensures lists[j] == [] {
      if j / 32 != word {
        ZeroBits(j % 32);
      }
      assert !BinBit(blocks, j);
    }
  }

  /** A largest chunk of the topmost non-empty bin is a largest free chunk. */
  lemma TopBinLargest(lists: Lists, f: Free, i: nat, s: int)
    requires ListsOk(lists, f) && i < NUM_BINS && lists[i] != []
    requires forall j :: i < j < NUM_BINS ==> lists[j] == []
    requires forall k :: 0 <= k < |lists[i]| ==> f[lists[i][k]] <= s
    requires exists k :: 0 <= k < |lists[i]| && f[lists[i][k]] == s
    ensures IsLargest(f, s)
  {
    var k :| 0 <= k < |lists[i]| && f[lists[i][k]] == s;
    assert SlotOk(lists[i][k], s);
    forall d | d in f ensures f[d] <= s {
      var j, p := Locate(lists, f, d);
      if f[d] > s {
        BinIndexMonotone(s, f[d]);
      }
    }
  }

  /** The topmost non-empty bin, from the bitmap; -1, which is no bin, exactly when no chunk is free. */
  method TopFullBin(blocks: seq<nat>, ghost lists: Lists, ghost f: Free) returns (index: int)
    requires ListsOk(lists, f) && Mapped(blocks, lists)
    ensures -1 <= index < NUM_BINS == |lists|
    ensures index == -1 <==> forall c :: c !in f
    ensures index >= 0 ==> lists[index] != [] && forall j :: index < j < NUM_BINS ==> lists[j] == []
  {
    WordsEmpty(blocks, lists, f);
    hide ListsOk, NumBits;
    var word, i := 0, 3;
    while i >= 0
      invariant -1 <= i <= 3 && word == 0
      invariant forall w :: i < w < 4 ==> blocks[w] == 0
    {
      if blocks[i] != 0 {
        word := i;
        break;
      }
      i := i - 1;
    }
    if blocks[word] != 0 {
      TopBin(blocks, lists, word);
    } else {
      NoBits();
    }
    var bitPosition := NumBits(blocks[word]) - 1;
    index := word * 32 + bitPosition;
  }

  lemma NoBits()
    ensures NumBits(0) == 0
  {
  }

  /** A size, or the walk starts at `mBins[-1]`, which is no bin. */
  datatype Largest = Size(bytes: int) | BeforeBins

  /** The bin of the largest chunks is found from the bitmap alone, if there is one. */
  method LargestFreeChunk(mem: Mem, blocks: seq<nat>, ghost lists: Lists, ghost f: Free) returns (r: Largest)
    requires IndexOk(mem, blocks, lists, f)
    ensures r.BeforeBins? <==> forall c :: c !in f
    ensures r.Size? ==> IsLargest(f, r.bytes)
  {
    hide ListsOk, Rings, Sized, Mapped, IsLargest;
    var index := TopFullBin(blocks, lists, f);
    if index < 0 {
      return BeforeBins;
    }
    var bin := BinAddr(index);
    ghost var k := |lists[index]|;
    TailNode(mem, lists, index);
    var candidate := Prev(mem, bin);
    var maxsize := 0;
    while candidate != bin
      invariant 0 <= k <= |lists[index]| && candidate == Loop(bin, lists[index])[k]
      invariant IsMaxFrom(lists[index], f, k, maxsize)
      decreases k
    {
      StepBack(mem, lists, f, index, k);
      MaxStep(lists[index], f, k, maxsize);
      var candidateSize := SizeOf(Tag(mem, candidate));
      maxsize := if candidateSize > maxsize then candidateSize else maxsize;
      candidate := Prev(mem, candidate);
      k := k - 1;
    }
    if k > 0 {
      StepBack(mem, lists, f, index, k);
    }
    TopBinLargest(lists, f, index, maxsize);
    return Size(maxsize);
  }

  /** `s` is the largest size from position `k` of a bin on, 0 at its end. */
  ghost predicate IsMaxFrom(l: seq<int>, f: Free, k: nat, s: int) {
    && k <= |l|
    && (forall j :: k <= j < |l| ==> l[j] in f && f[l[j]] <= s)
    && (if k == |l| then s == 0 else exists j :: k <= j < |l| && l[j] in f && f[l[j]] == s)
  }

  lemma MaxStep(l: seq<int>, f: Free, k: nat, s: int)
    requires IsMaxFrom(l, f, k, s) && 1 <= k && l[k - 1] in f && f[l[k - 1]] >= 0
    ensures IsMaxFrom(l, f, k - 1, if f[l[k - 1]] > s then f[l[k - 1]] else s)
  {
    if f[l[k - 1]] > s || k == |l| {
      assert l[k - 1] in f && f[l[k - 1]] == if f[l[k - 1]] > s then f[l[k - 1]] else s;
    }
  }

  /** The bitmap is empty exactly when no chunk is free. */
  lemma WordsEmpty(blocks: seq<nat>, lists: Lists, f: Free)
    requires ListsOk(lists, f) && Mapped(blocks, lists)
    ensures (forall w :: 0 <= w < 4 ==> blocks[w] == 0) <==> forall c :: c !in f
  {
    if c :| c in f {
      var i, k := Locate(lists, f, c);
      assert BinBit(blocks, i);
      if blocks[i / 32] == 0 {
        ZeroBits(i % 32);
      }
    } else {
      forall w | 0 <= w < 4 ensures blocks[w] == 0 {
        if blocks[w] != 0 {
          BitOfWord(blocks, lists, f, w);
        }
      }
    }
  }

  lemma BinOfWord(blocks: seq<nat>, lists: Lists, w: nat) returns (i: nat)
    requires Mapped(blocks, lists) && w < 4 && blocks[w] != 0
    ensures i < NUM_BINS == |lists| && lists[i] != []
  {
    var k: nat := NumBits(blocks[w]) - 1;
    TopBit(blocks[w]);
    TopInWord(blocks[w], k);
    i := w * 32 + k;
    hide Bit, NumBits;
    assert i / 32 == w && i % 32 == k;
    assert BinBit(blocks, i);
  }

  lemma SomeListed(lists: Lists, f: Free, i: nat)
    requires ListsOk(lists, f) && i < |lists| && lists[i] != []
    ensures exists c :: c in f
  {
    hide BinIndex;
    var c := lists[i][0];
    assert c in f;
  }

  lemma BitOfWord(blocks: seq<nat>, lists: Lists, f: Free, w: nat)
    requires |blocks| == 4 && ListsOk(lists, f) && Mapped(blocks, lists) && w < 4 && blocks[w] != 0
    ensures exists c :: c in f
  {
    hide ListsOk, Mapped;
    var i := BinOfWord(blocks, lists, w);
    SomeListed(lists, f, i);
  }
}
