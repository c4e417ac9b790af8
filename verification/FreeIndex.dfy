/**
 The free index as a whole: bins, bitmap and the map of free chunks agree.
 */
module FreeIndex {
  import opened Words
  import opened Sizes
  import opened Links
  import opened Bins

  type Free = map<int, int>
  type Lists = seq<seq<int>>

  /** `mBins + i`; the bin headers sit below every area. */
  function BinAddr(i: nat): int { 32 * i - 4096 }

  ghost predicate SlotOk(c: int, s: int) {
    c > 0 && c % 64 == 32 && s % 64 == 0 && MIN_ALLOC <= s < MAX_SIZE
  }

  ghost predicate FreeOk(f: Free) {
    forall c :: c in f ==> SlotOk(c, f[c])
  }

  /** Every listed chunk is free and in the bin of its size. */
  ghost predicate InPlace(lists: Lists, f: Free) {
    && |lists| == NUM_BINS
    && forall i, k :: 0 <= i < NUM_BINS && 0 <= k < |lists[i]| ==>
      lists[i][k] in f && f[lists[i][k]] >= 0 && BinIndex(f[lists[i][k]]) == i
  }

  /** Every free chunk is listed. */
  ghost predicate Complete(lists: Lists, f: Free) {
    && |lists| == NUM_BINS
    && forall c :: c in f ==> f[c] >= 0 && BinIndex(f[c]) < NUM_BINS && c in lists[BinIndex(f[c])]
  }

  /** Along `mNext`, sizes never grow. */
  ghost predicate Descending(l: seq<int>, f: Free) {
    forall k, j :: 0 <= k < j < |l| && l[k] in f && l[j] in f ==> f[l[k]] >= f[l[j]]
  }

  ghost predicate Sorted(lists: Lists, f: Free) {
    forall i :: 0 <= i < |lists| ==> Descending(lists[i], f)
  }

  ghost predicate Rings(m: Mem, lists: Lists) {
    |lists| == NUM_BINS && forall i {:trigger lists[i]} :: 0 <= i < NUM_BINS ==> Ring(m, BinAddr(i), lists[i])
  }

  /** A bit is set exactly when its bin is not empty. */
  ghost predicate Mapped(blocks: seq<nat>, lists: Lists) {
    && BlocksOk(blocks) && |lists| == NUM_BINS
    && forall i: nat {:trigger BinBit(blocks, i)} :: i < NUM_BINS ==> (BinBit(blocks, i) <==> lists[i] != [])
  }

  /** The size tags in memory are those of the free map. */
  ghost predicate Sized(m: Mem, f: Free) {
    forall c :: c in f ==> Tag(m, c) == f[c]
  }

  ghost predicate ListsOk(lists: Lists, f: Free) {
    FreeOk(f) && InPlace(lists, f) && Complete(lists, f) && Sorted(lists, f)
  }

  ghost predicate IndexOk(m: Mem, blocks: seq<nat>, lists: Lists, f: Free) {
    ListsOk(lists, f) && Rings(m, lists) && Mapped(blocks, lists) && Sized(m, f)
  }

  /** Where a free chunk is listed. */
  lemma Locate(lists: Lists, f: Free, c: int) returns (i: nat, k: nat)
    requires ListsOk(lists, f) && c in f
    ensures f[c] % 2 == 0 && f[c] >= 0 && i == BinIndex(f[c]) && i < NUM_BINS && k < |lists[i]| && lists[i][k] == c
  {
    hide BinIndex, InPlace, Sorted;
    i := BinIndex(f[c]);
    k :| 0 <= k < |lists[i]| && lists[i][k] == c;
    assert SlotOk(c, f[c]);
    Halves(f[c]);
  }

  /** A bin header is its own neighbour exactly when the bin is empty. */
  lemma BinEmpty(m: Mem, lists: Lists, i: nat)
    requires Rings(m, lists) && i < NUM_BINS
    ensures Next(m, BinAddr(i)) == BinAddr(i) <==> lists[i] == []
    ensures Prev(m, BinAddr(i)) == BinAddr(i) <==> lists[i] == []
  {
    var b, l := BinAddr(i), lists[i];
    assert Ring(m, b, l);
    assert Next(m, Loop(b, l)[0]) == Loop(b, l)[1];
    assert Prev(m, Loop(b, l)[|l| + 1]) == Loop(b, l)[|l|];
  }

  // ----- linking

  ghost predicate InsertsInOrder(l: seq<int>, f: Free, k: nat, s: int) {
    && k <= |l|
    && (forall j :: 0 <= j < k && l[j] in f ==> f[l[j]] >= s)
    && (forall j :: k <= j < |l| && l[j] in f ==> f[l[j]] <= s)
  }

  lemma LinkListsInPlace(lists: Lists, f: Free, c: int, s: int, i: nat, k: nat)
    requires ListsOk(lists, f) && c !in f && SlotOk(c, s) && i == BinIndex(s) && i < NUM_BINS && k <= |lists[i]|
    ensures InPlace(lists[i := InsertAt(lists[i], k, c)], f[c := s])
  {
  }

  lemma LinkListsComplete(lists: Lists, f: Free, c: int, s: int, i: nat, k: nat)
    requires ListsOk(lists, f) && c !in f && SlotOk(c, s) && i == BinIndex(s) && i < NUM_BINS && k <= |lists[i]|
    ensures Complete(lists[i := InsertAt(lists[i], k, c)], f[c := s])
  {
    var l' := InsertAt(lists[i], k, c);
    forall x | x in f || x == c ensures x == c || x in lists[i] ==> x in l' {
      if x == c {
        assert l'[k] == c;
      } else if x in lists[i] {
        var j :| 0 <= j < |lists[i]| && lists[i][j] == x;
        assert l'[if j < k then j else j + 1] == x;
      }
    }
  }

  lemma LinkSorted(l: seq<int>, f: Free, c: int, s: int, k: nat)
    requires Descending(l, f) && c !in f && InsertsInOrder(l, f, k, s)
    requires forall j :: 0 <= j < |l| ==> l[j] in f
    ensures Descending(InsertAt(l, k, c), f[c := s])
  {
  }

  lemma LinkListsOk(lists: Lists, f: Free, c: int, s: int, i: nat, k: nat)
    requires ListsOk(lists, f) && c !in f && SlotOk(c, s) && i == BinIndex(s) && i < NUM_BINS && k <= |lists[i]|
    requires InsertsInOrder(lists[i], f, k, s)
    ensures ListsOk(lists[i := InsertAt(lists[i], k, c)], f[c := s])
  {
    LinkListsInPlace(lists, f, c, s, i, k);
    LinkListsComplete(lists, f, c, s, i, k);
    LinkSorted(lists[i], f, c, s, k);
    var lists' := lists[i := InsertAt(lists[i], k, c)];
    forall j | 0 <= j < |lists'| ensures Descending(lists'[j], f[c := s]) {
      if j != i {
        assert Descending(lists[j], f);
        assert forall x :: 0 <= x < |lists[j]| ==> lists[j][x] in f && lists[j][x] != c;
      }
    }
  }

  /** Chunks and bin headers of different bins are different nodes. */
  lemma NodesApart(lists: Lists, f: Free, i: nat, j: nat, x: int, y: int)
    requires FreeOk(f) && InPlace(lists, f) && i < NUM_BINS && j < NUM_BINS && i != j
    requires x == BinAddr(i) || x in lists[i]
    requires y == BinAddr(j) || y in lists[j]
    ensures x != y && x % 32 == 0 && y % 32 == 0
  {
    hide InPlace, FreeOk, BinIndex, BinAddr;
    Listed(lists, f, i, x);
    Listed(lists, f, j, y);
    BinSlots(i, j);
  }

  /** The bin headers are aligned, below all chunks, and differ. */
  lemma BinSlots(i: nat, j: nat)
    requires i < NUM_BINS && j < NUM_BINS && i != j
    ensures BinAddr(i) != BinAddr(j) && BinAddr(i) < 0 && BinAddr(j) < 0
    ensures BinAddr(i) % 32 == 0 && BinAddr(j) % 32 == 0
  {
    Times(32, i - 128);
    Times(32, j - 128);
  }

  lemma Listed(lists: Lists, f: Free, i: nat, x: int)
    requires FreeOk(f) && InPlace(lists, f) && i < NUM_BINS
    ensures x in lists[i] ==> x in f && x > 0 && x % 32 == 0 && f[x] >= 0 && f[x] % 2 == 0 && BinIndex(f[x]) == i
  {
    hide BinIndex;
    if x in lists[i] {
      var k :| 0 <= k < |lists[i]| && lists[i][k] == x;
      assert SlotOk(x, f[x]);
      Halves(x);
      Halves(f[x]);
    }
  }

  /** A listed chunk is free, aligned and tagged with an even size below 2^31. */
  lemma Member(lists: Lists, f: Free, i: nat, k: nat)
    requires ListsOk(lists, f) && |lists| == NUM_BINS && i < NUM_BINS && k < |lists[i]|
    ensures var x := lists[i][k];
      && x in f && SlotOk(x, f[x]) && x % 32 == 0 && f[x] % 2 == 0 && SizeOf(f[x]) == f[x] && BinIndex(f[x]) == i
  {
    hide BinIndex, Complete, Sorted;
    var x := lists[i][k];
    assert SlotOk(x, f[x]);
    Halves(x);
    Halves(f[x]);
  }

  lemma SlotIn(lists: Lists, f: Free, x: int)
    requires ListsOk(lists, f) && x in f
    ensures SlotOk(x, f[x])
  {
    hide InPlace, Complete, Sorted;
  }

  lemma LoopNode(b: int, l: seq<int>, k: nat)
    requires k < |l| + 2
    ensures Loop(b, l)[k] == b || Loop(b, l)[k] in l
  {
  }

  lemma LinkRings(m: Mem, m': Mem, lists: Lists, f: Free, c: int, i: nat, k: nat)
    requires FreeOk(f) && InPlace(lists, f) && Rings(m, lists) && c !in f && c > 0 && c % 32 == 0
    requires i < NUM_BINS && k <= |lists[i]|
    requires Spliced(m, m', Loop(BinAddr(i), lists[i])[k], c, Loop(BinAddr(i), lists[i])[k + 1])
    ensures Rings(m', lists[i := InsertAt(lists[i], k, c)])
  {
    hide BinIndex, Ring;
    var s := Loop(BinAddr(i), lists[i]);
    var lists' := lists[i := InsertAt(lists[i], k, c)];
    LoopNode(BinAddr(i), lists[i], k);
    LoopNode(BinAddr(i), lists[i], k + 1);
    forall j | 0 <= j < NUM_BINS ensures Ring(m', BinAddr(j), lists'[j]) {
      assert Ring(m, BinAddr(j), lists[j]);
      if j == i {
        InsertRing(m, m', BinAddr(i), lists[i], k, c);
      } else {
        forall x | x == BinAddr(j) || x in lists[j]
          ensures Next(m', x) == Next(m, x) && Prev(m', x) == Prev(m, x)
        {
          NodesApart(lists, f, i, j, s[k], x);
          NodesApart(lists, f, i, j, s[k + 1], x);
        }
        RingFrame(m, m', BinAddr(j), lists[j]);
      }
    }
  }

  ghost predicate CanLink(m: Mem, lists: Lists, f: Free, c: int, s: int, i: nat) {
    && ListsOk(lists, f) && Rings(m, lists) && Sized(m, f)
    && c !in f && SlotOk(c, s) && Tag(m, c) == s && i == BinIndex(s) && i < NUM_BINS
  }

  /** A chunk inserted at position `k` of bin `i`: the two neighbours are relinked. */
  ghost predicate LinkedIn(m: Mem, m': Mem, l: seq<int>, c: int, i: nat, k: nat) {
    k <= |l| && Spliced(m, m', Loop(BinAddr(i), l)[k], c, Loop(BinAddr(i), l)[k + 1])
  }

  /** The two nodes between which chunk `c` goes are linked to each other, aligned and not `c`. */
  lemma Gapped(m: Mem, lists: Lists, f: Free, c: int, i: nat, k: nat)
    requires ListsOk(lists, f) && Rings(m, lists) && c !in f && c > 0 && i < NUM_BINS && k <= |lists[i]|
    ensures var p, n := Loop(BinAddr(i), lists[i])[k], Loop(BinAddr(i), lists[i])[k + 1];
      && Next(m, p) == n && Prev(m, n) == p && p % 32 == 0 && n % 32 == 0 && c != p && c != n
  {
    hide ListsOk, Next, Prev;
    var b, l := BinAddr(i), lists[i];
    assert Ring(m, b, l);
    assert Next(m, Loop(b, l)[k]) == Loop(b, l)[k + 1];
    assert Prev(m, Loop(b, l)[k + 1]) == Loop(b, l)[k];
    if k > 0 {
      Member(lists, f, i, k - 1);
    }
    if k < |l| {
      Member(lists, f, i, k);
    }
  }

  lemma LinkFront(m: Mem, lists: Lists, f: Free, c: int, s: int, i: nat)
    requires CanLink(m, lists, f, c, s, i) && (i < NUM_SMALL_BINS || Next(m, BinAddr(i)) == BinAddr(i))
    ensures InsertsInOrder(lists[i], f, 0, s)
    ensures LinkedIn(m, InsertAfter(m, c, BinAddr(i)), lists[i], c, i, 0)
  {
    hide ListsOk, Ring, Sized, Spliced, InsertAfter, BinIndex;
    var b, l := BinAddr(i), lists[i];
    Gapped(m, lists, f, c, i, 0);
    Halves(c);
    InsertSplices(m, c, b, Loop(b, l)[1]);
    BinEmpty(m, lists, i);
    forall j | 0 <= j < |l| ensures l[j] in f && f[l[j]] <= s {
      Member(lists, f, i, j);
      SmallBinExact(s, f[l[j]]);
    }
  }

  lemma LinkBehind(m: Mem, lists: Lists, f: Free, c: int, s: int, i: nat, k: nat)
    requires CanLink(m, lists, f, c, s, i) && k <= |lists[i]|
    requires forall j :: 0 <= j < k ==> f[lists[i][j]] > s
    requires k < |lists[i]| ==> f[lists[i][k]] <= s
    ensures InsertsInOrder(lists[i], f, k, s)
    ensures LinkedIn(m, InsertBefore(m, c, Loop(BinAddr(i), lists[i])[k + 1]), lists[i], c, i, k)
  {
    hide FreeOk, InPlace, Complete, Ring, Sized, Spliced, InsertBefore, BinIndex;
    var b, l := BinAddr(i), lists[i];
    Gapped(m, lists, f, c, i, k);
    Halves(c);
    InsertSplices(m, c, Loop(b, l)[k], Loop(b, l)[k + 1]);
    assert Descending(l, f);
    if k < |l| {
      Member(lists, f, i, k);
    }
  }

  lemma SplicedLinksOnly(m: Mem, m': Mem, lists: Lists, f: Free, c: int, i: nat, k: nat)
    requires InPlace(lists, f) && i < NUM_BINS && LinkedIn(m, m', lists[i], c, i, k)
    ensures LinksOnly(m, m', f.Keys + {c})
  {
    LoopNode(BinAddr(i), lists[i], k);
    LoopNode(BinAddr(i), lists[i], k + 1);
  }

  lemma SizedFrame(m: Mem, m': Mem, f: Free, keys: set<int>)
    requires Sized(m, f) && FreeOk(f) && LinksOnly(m, m', keys) && forall x :: x in keys ==> x % 64 == 32
    ensures Sized(m', f)
  {
    forall x | x in f ensures Tag(m', x) == f[x] {
      assert x + 24 !in keys && x + 24 - 8 !in keys;
    }
  }

  lemma LinkIndexOk(m: Mem, m': Mem, blocks: seq<nat>, lists: Lists, f: Free, c: int, s: int, i: nat, k: nat)
    requires CanLink(m, lists, f, c, s, i) && LinkedIn(m, m', lists[i], c, i, k)
    requires InsertsInOrder(lists[i], f, k, s)
    requires BlocksOk(blocks)
    requires forall j: nat {:trigger BinBit(blocks, j)} :: j < NUM_BINS ==>
      (BinBit(blocks, j) <==> j == i || lists[j] != [])
    ensures IndexOk(m', blocks, lists[i := InsertAt(lists[i], k, c)], f[c := s])
    ensures LinksOnly(m, m', f.Keys + {c})
  {
    hide BinIndex, BinBit, Spliced, InsertsInOrder;
    LinkListsOk(lists, f, c, s, i, k);
    LinkRings(m, m', lists, f, c, i, k);
    SplicedLinksOnly(m, m', lists, f, c, i, k);
    SizedFrame(m, m', f[c := s], f.Keys + {c});
    hide ListsOk, Rings, LinksOnly;
  }

  // ----- unlinking

  lemma UnlinkInPlace(lists: Lists, f: Free, i: nat, k: nat)
    requires InPlace(lists, f) && i < NUM_BINS && k < |lists[i]| && Distinct(BinAddr(i), lists[i])
    ensures InPlace(lists[i := RemoveAt(lists[i], k)], f - {lists[i][k]})
  {
    hide BinIndex;
    var c, lists' := lists[i][k], lists[i := RemoveAt(lists[i], k)];
    forall j, p | 0 <= j < NUM_BINS && 0 <= p < |lists'[j]|
      ensures lists'[j][p] != c && lists'[j][p] in f && f[lists'[j][p]] >= 0 && BinIndex(f[lists'[j][p]]) == j
    {
      var p' := if j == i && p >= k then p + 1 else p;
      assert lists'[j][p] == lists[j][p'];
    }
  }

  lemma UnlinkComplete(lists: Lists, f: Free, i: nat, k: nat)
    requires Complete(lists, f) && i < NUM_BINS && k < |lists[i]|
    ensures Complete(lists[i := RemoveAt(lists[i], k)], f - {lists[i][k]})
  {
    hide BinIndex, RemoveAt;
    var f' := f - {lists[i][k]};
    var lists' := lists[i := RemoveAt(lists[i], k)];
    forall x | x in f' ensures x in lists'[BinIndex(f[x])] {
      UnlinkMember(lists[BinIndex(f[x])], x, k);
    }
  }

  lemma UnlinkListsOk(lists: Lists, f: Free, i: nat, k: nat)
    requires ListsOk(lists, f) && i < NUM_BINS && k < |lists[i]|
    requires Distinct(BinAddr(i), lists[i])
    ensures ListsOk(lists[i := RemoveAt(lists[i], k)], f - {lists[i][k]})
  {
    UnlinkInPlace(lists, f, i, k);
    UnlinkComplete(lists, f, i, k);
    hide BinIndex, InPlace, Complete, Distinct;
    var f' := f - {lists[i][k]};
    var lists' := lists[i := RemoveAt(lists[i], k)];
    forall j | 0 <= j < |lists'| ensures Descending(lists'[j], f') {
      assert Descending(lists[j], f);
    }
  }

  lemma UnlinkMember(l: seq<int>, x: int, k: nat)
    requires x in l
    ensures k < |l| && x != l[k] ==> x in RemoveAt(l, k)
  {
    if k < |l| && x != l[k] {
      var j :| 0 <= j < |l| && l[j] == x;
      assert RemoveAt(l, k)[if j < k then j else j - 1] == x;
    }
  }

  lemma UnlinkRings(m: Mem, lists: Lists, f: Free, i: nat, k: nat)
    requires FreeOk(f) && InPlace(lists, f) && Rings(m, lists) && i < NUM_BINS && k < |lists[i]|
    ensures Rings(RemoveLeaveDangling(m, lists[i][k]), lists[i := RemoveAt(lists[i], k)])
  {
    hide BinIndex, Ring, RemoveLeaveDangling;
    var s := Loop(BinAddr(i), lists[i]);
    var m' := RemoveLeaveDangling(m, lists[i][k]);
    var lists' := lists[i := RemoveAt(lists[i], k)];
    assert Ring(m, BinAddr(i), lists[i]);
    RemoveRing(m, BinAddr(i), lists[i], k);
    LoopNode(BinAddr(i), lists[i], k);
    LoopNode(BinAddr(i), lists[i], k + 2);
    forall j | 0 <= j < NUM_BINS ensures Ring(m', BinAddr(j), lists'[j]) {
      assert Ring(m, BinAddr(j), lists[j]);
      if j != i {
        forall x | x == BinAddr(j) || x in lists[j]
          ensures Next(m', x) == Next(m, x) && Prev(m', x) == Prev(m, x)
        {
          NodesApart(lists, f, i, j, s[k], x);
          NodesApart(lists, f, i, j, s[k + 2], x);
        }
        RingFrame(m, m', BinAddr(j), lists[j]);
      }
    }
  }

  lemma RingFirst(m: Mem, b: int, l: seq<int>)
    requires Ring(m, b, l)
    ensures Next(m, b) == b <==> l == []
  {
    assert Next(m, Loop(b, l)[0]) == Loop(b, l)[1];
  }

  lemma ClosedKeepsTag(m: Mem, m': Mem, lists: Lists, f: Free, i: nat, k: nat)
    requires FreeOk(f) && InPlace(lists, f) && |lists| == NUM_BINS && i < NUM_BINS && k < |lists[i]|
    requires Closed(m, m', Loop(BinAddr(i), lists[i])[k], Loop(BinAddr(i), lists[i])[k + 2])
    ensures Tag(m', lists[i][k]) == Tag(m, lists[i][k])
  {
    hide InPlace, FreeOk, BinIndex;
    var s := Loop(BinAddr(i), lists[i]);
    LoopNode(BinAddr(i), lists[i], k);
    LoopNode(BinAddr(i), lists[i], k + 2);
    Listed(lists, f, i, s[k]);
    Listed(lists, f, i, s[k + 2]);
    Listed(lists, f, i, lists[i][k]);
  }

  /** What `UnlinkFree` reads after the removal: the size, and whether the bin is now empty. */
  lemma UnlinkReads(m: Mem, lists: Lists, f: Free, i: nat, k: nat)
    requires ListsOk(lists, f) && Rings(m, lists) && Sized(m, f) && i < NUM_BINS && k < |lists[i]|
    ensures Tag(RemoveLeaveDangling(m, lists[i][k]), lists[i][k]) == f[lists[i][k]]
    ensures Next(RemoveLeaveDangling(m, lists[i][k]), BinAddr(i)) == BinAddr(i) <==> |lists[i]| == 1
  {
    hide BinIndex, RemoveLeaveDangling, Descending, Complete;
    var b, l := BinAddr(i), lists[i];
    assert Ring(m, b, l);
    RemoveRing(m, b, l, k);
    var m', l' := RemoveLeaveDangling(m, l[k]), RemoveAt(l, k);
    RingFirst(m', b, l');
    Listed(lists, f, i, l[k]);
    ClosedKeepsTag(m, m', lists, f, i, k);
  }

  lemma UnlinkIndexOk(m: Mem, blocks: seq<nat>, lists: Lists, f: Free, i: nat, k: nat)
    requires ListsOk(lists, f) && Rings(m, lists) && Sized(m, f) && i < NUM_BINS && k < |lists[i]|
    requires BlocksOk(blocks)
    requires forall j: nat {:trigger BinBit(blocks, j)} :: j < NUM_BINS ==>
      (BinBit(blocks, j) <==> if j == i then |lists[i]| > 1 else lists[j] != [])
    ensures IndexOk(RemoveLeaveDangling(m, lists[i][k]), blocks, lists[i := RemoveAt(lists[i], k)], f - {lists[i][k]})
    ensures LinksOnly(m, RemoveLeaveDangling(m, lists[i][k]), f.Keys)
  {
    var m' := RemoveLeaveDangling(m, lists[i][k]);
    assert Ring(m, BinAddr(i), lists[i]);
    UnlinkListsOk(lists, f, i, k);
    UnlinkRings(m, lists, f, i, k);
    RemoveRing(m, BinAddr(i), lists[i], k);
    LoopNode(BinAddr(i), lists[i], k);
    LoopNode(BinAddr(i), lists[i], k + 2);
    assert LinksOnly(m, m', f.Keys);
    SizedFrame(m, m', f - {lists[i][k]}, f.Keys);
    hide ListsOk, Rings, LinksOnly, Ring;
  }
}
