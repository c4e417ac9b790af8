/**
 The index of free chunks: 128 size bins, each a circular list laid out in
 memory, and a bitmap with one bit per bin (common/SC_AllocPool.h).

 `f` maps the address of every indexed free chunk to its size and `lists[i]` is
 the content of bin `i` in `mNext` order.
 */
module Bins {
  import opened Words
  import opened Sizes
  import opened Links

  // ----- boundary tags in memory

  function PrevTag(m: Mem, c: int): int { Rd(m, c + 16) }

  function Tag(m: Mem, c: int): int { Rd(m, c + 24) }

  /** `mSize & kSizeBits`. */
  function SizeOf(w: int): int { w - w % 2 }

  /** `mSize & kChunkInUse`. */
  predicate InUseBit(w: int) { w % 2 == 1 }

  // ----- the bitmap

  predicate BinBit(blocks: seq<nat>, i: nat)
    requires |blocks| == 4 && i < NUM_BINS
  {
    Bit(blocks[i / 32], i % 32)
  }

  ghost predicate BlocksOk(blocks: seq<nat>) {
    |blocks| == 4 && forall w :: 0 <= w < 4 ==> blocks[w] < WORD32
  }

  function MarkBinBlock(blocks: seq<nat>, i: nat): (r: seq<nat>)
    requires |blocks| == 4 && i < NUM_BINS
  {
    blocks[i / 32 := Or(blocks[i / 32], Pow2(i % 32))]
  }

  function ClearBinBlock(blocks: seq<nat>, i: nat): (r: seq<nat>)
    requires |blocks| == 4 && i < NUM_BINS
  {
    Pow2Below(i % 32);
    blocks[i / 32 := And(blocks[i / 32], WORD64 - 1 - Pow2(i % 32))]
  }

  lemma Pow2Below(j: nat)
    requires j < 32
    ensures Pow2(j) < WORD32
  {
    var n := Width32();
    Pow2Mono(j, n - 1);
  }

  lemma MarkBinBits(blocks: seq<nat>, i: nat)
    requires BlocksOk(blocks) && i < NUM_BINS
    ensures BlocksOk(MarkBinBlock(blocks, i))
    ensures forall j: nat :: j < NUM_BINS ==> (BinBit(MarkBinBlock(blocks, i), j) <==> j == i || BinBit(blocks, j))
  {
    var n := Width32();
    Pow2Below(i % 32);
    OrBound(n, blocks[i / 32], Pow2(i % 32));
    forall j: nat | j < NUM_BINS
      ensures BinBit(MarkBinBlock(blocks, i), j) <==> j == i || BinBit(blocks, j)
    {
      OrBit(blocks[i / 32], Pow2(i % 32), j % 32);
      Pow2Bit(i % 32, j % 32);
    }
  }

  lemma ClearBinBits(blocks: seq<nat>, i: nat)
    requires BlocksOk(blocks) && i < NUM_BINS
    ensures BlocksOk(ClearBinBlock(blocks, i))
    ensures forall j: nat :: j < NUM_BINS ==> (BinBit(ClearBinBlock(blocks, i), j) <==> j != i && BinBit(blocks, j))
  {
    var n := Width64();
    Pow2Below(i % 32);
    var mask := WORD64 - 1 - Pow2(i % 32);
    AndBound(blocks[i / 32], mask);
    forall j: nat | j < NUM_BINS
      ensures BinBit(ClearBinBlock(blocks, i), j) <==> j != i && BinBit(blocks, j)
    {
      AndBit(blocks[i / 32], mask, j % 32);
      NotBit(n, Pow2(i % 32), j % 32);
      Pow2Bit(i % 32, j % 32);
    }
  }

  /** `~(2^j - 1) & w` on 64-bit words, as `NextFullBin` masks a word. */
  function BitsFrom(w: nat, j: nat): (r: nat)
    requires j < 32
  {
    Pow2Below(j);
    And(WORD64 - 1 - (Pow2(j) - 1), w)
  }

  lemma BitsFromBit(w: nat, j: nat, k: nat)
    requires w < WORD32 && j < 32 && k < 32
    ensures BitsFrom(w, j) < WORD32
    ensures Bit(BitsFrom(w, j), k) <==> k >= j && Bit(w, k)
  {
    var n := Width64();
    Pow2Below(j);
    var mask := WORD64 - 1 - (Pow2(j) - 1);
    AndBound(mask, w);
    AndBit(mask, w, k);
    NotBit(n, Pow2(j) - 1, k);
    MaskBit(j, k);
  }

  /** The masked word leads to the least set bit at or above `j`. */
  lemma CtzFrom(w: nat, j: nat)
    requires w < WORD32 && j < 32 && w >= Pow2(j)
    ensures BitsFrom(w, j) < WORD32
    ensures j <= Ctz(BitsFrom(w, j)) < 32 && Bit(w, Ctz(BitsFrom(w, j)))
    ensures forall k: nat :: j <= k < Ctz(BitsFrom(w, j)) ==> !Bit(w, k)
  {
    var top := HighBitExists(w, j);
    TopInWord(w, top);
    var u := BitsFrom(w, j);
    BitsFromBit(w, j, top);
    ZeroBits(top);
    CtzIsLeastBit(u);
    BitsFromBit(w, j, Ctz(u));
    forall k: nat | j <= k < Ctz(u) ensures !Bit(w, k) {
      BitsFromBit(w, j, k);
    }
  }

  lemma ZeroWord(blocks: seq<nat>, w: nat)
    requires BlocksOk(blocks) && w < 4 && blocks[w] == 0
    ensures forall j: nat :: j < NUM_BINS && j / 32 == w ==> !BinBit(blocks, j)
  {
    forall j: nat | j < NUM_BINS && j / 32 == w ensures !BinBit(blocks, j) {
      ZeroBits(j % 32);
    }
  }

  lemma NothingAbove(blocks: seq<nat>, word: nat, lo: nat)
    requires BlocksOk(blocks) && word < 4 && lo < 32 && blocks[word] < Pow2(lo)
    ensures forall j: nat :: word * 32 + lo <= j < word * 32 + 32 ==> !BinBit(blocks, j)
  {
    forall j: nat | word * 32 + lo <= j < word * 32 + 32 ensures !BinBit(blocks, j) {
      HighBitsClear(blocks[word], lo, j % 32);
    }
  }

  lemma FirstInWord(blocks: seq<nat>, word: nat, lo: nat, t: nat)
    requires BlocksOk(blocks) && word < 4 && lo <= t < 32 && Bit(blocks[word], t)
    requires forall k: nat :: lo <= k < t ==> !Bit(blocks[word], k)
    ensures BinBit(blocks, word * 32 + t)
    ensures forall j: nat :: word * 32 + lo <= j < word * 32 + t ==> !BinBit(blocks, j)
  {
    hide Bit;
  }

  /** Least non-empty bin at or above `start`; -1 when there is none. */
  method NextFullBin(blocks: seq<nat>, start: nat) returns (r: int)
    requires BlocksOk(blocks)
    ensures -1 <= r < NUM_BINS
    ensures r >= 0 ==> r >= start && BinBit(blocks, r) && forall j: nat :: start <= j < r ==> !BinBit(blocks, j)
    ensures r < 0 ==> forall j: nat :: start <= j < NUM_BINS ==> !BinBit(blocks, j)
  {
    hide Bit, BinBit, Ctz, BitsFrom, Pow2;
    if start >= 128 {
      return -1;
    }
    var word := start / 32;
    var bitPosition := start % 32;
    var bitValue := Pow2(bitPosition);
    var binBits := blocks[word];
    if binBits >= bitValue {
      CtzFrom(binBits, bitPosition);
      binBits := BitsFrom(binBits, bitPosition);
      FirstInWord(blocks, word, bitPosition, Ctz(binBits));
    } else {
      NothingAbove(blocks, word, bitPosition);
      word := word + 1;
      while word < 4 && blocks[word] == 0
        invariant word <= 4
        invariant forall j: nat :: start <= j < 32 * word && j < NUM_BINS ==> !BinBit(blocks, j)
      {
        ZeroWord(blocks, word);
        word := word + 1;
      }
      if word == 4 {
        return -1;
      }
      binBits := blocks[word];
      CtzIsLeastBit(binBits);
      FirstInWord(blocks, word, 0, Ctz(binBits));
    }
    bitPosition := Ctz(binBits);
    return word * 32 + bitPosition;
  }

  lemma TopInWord(w: nat, k: nat)
    requires w < WORD32 && Bit(w, k)
    ensures k < 32
  {
    var n := Width32();
    if k >= n {
      HighBitsClear(w, n, k);
    }
  }
}
