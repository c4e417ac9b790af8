/**
 Request sizes and size bins of the pool allocator (common/SC_AllocPool.h).
 */
module Sizes {
  import opened Words

  const ALIGN: nat := 64            // kAlign
  const MIN_ALLOC: nat := 128       // kMinAllocSize
  const HEADER: nat := 32           // sizeof(AllocChunk) on a 64-bit target
  const AREA_HEADER: nat := 32      // sizeof(AllocAreaHdr)
  const AREA_OVERHEAD: nat := 160   // kAreaOverhead
  const NUM_BINS: nat := 128        // kNumAllocBins
  const NUM_SMALL_BINS: nat := 64   // kNumSmallBins
  const MAX_SMALL_BIN: nat := 63    // kMaxSmallBin

  /** Areas and chunks are smaller than this, since remainders are `int32`. */
  const MAX_SIZE: nat := 0x8000_0000

  /** Rounds a request up to a chunk size, in 64-bit unsigned arithmetic. */
  function RequestToSize(req: nat): (r: nat)
    requires req < WORD64
  {
    var sizePlusOverhead := (req + HEADER) % WORD64;
    if sizePlusOverhead <= MIN_ALLOC then MIN_ALLOC
    else
      var up := (sizePlusOverhead + (ALIGN - 1)) % WORD64;
      up - up % ALIGN
  }

  /** The least legal chunk size that holds `req` payload bytes and a header. */
  ghost predicate IsTightSize(req: nat, s: nat) {
    && s % ALIGN == 0 && MIN_ALLOC <= s && req + HEADER <= s
    && forall t: nat :: t % ALIGN == 0 && MIN_ALLOC <= t && req + HEADER <= t ==> s <= t
  }

  lemma SlotAt(a: int, b: int)
    requires a % 64 == 32 && b % 64 == 0
    ensures (a + b) % 64 == 32
  {
  }

  lemma Gap(a: int, b: int)
    requires a % 64 == 32 && b % 64 == 32
    ensures (b - a) % 64 == 0
  {
  }

  lemma OneSlot(a: int, b: int)
    requires a % 64 == 32 && b % 64 == 32 && a < b
    ensures b - a >= 64
  {
  }

  lemma Halves(a: int)
    ensures a % 64 == 32 ==> a % 32 == 0
    ensures a % 64 == 0 ==> a % 2 == 0 && (a + 1) % 2 == 1
  {
    var q := a / 64;
    if a % 64 == 32 {
      Times(32, 2 * q + 1);
      assert a == 32 * (2 * q + 1);
    } else if a % 64 == 0 {
      Times(2, 32 * q);
      assert a == 2 * (32 * q);
    }
  }

  lemma Times(k: nat, n: int)
    requires k == 2 || k == 32
    ensures k * n % k == 0 && (k * n + 1) % k == 1
  {
  }

  lemma RoundUpLeast(x: nat)
    ensures var s := x + (ALIGN - 1) - (x + (ALIGN - 1)) % ALIGN;
      && s % ALIGN == 0 && x <= s < x + ALIGN && forall t: nat :: t % ALIGN == 0 && x <= t ==> s <= t
  {
    var s := x + (ALIGN - 1) - (x + (ALIGN - 1)) % ALIGN;
    forall t: nat | t % ALIGN == 0 && x <= t ensures s <= t {
      assert s < t + ALIGN;
    }
  }

  /**
   RequestToSize gives the least chunk size that fits exactly when neither
   addition wraps; a request within 95 bytes of 2^64 gets a chunk too small.
   */
  lemma RequestToSizeExact(req: nat)
    requires req < WORD64
    ensures IsTightSize(req, RequestToSize(req)) <==> req + HEADER + ALIGN - 1 < WORD64
  {
    var s := RequestToSize(req);
    if req + HEADER + ALIGN - 1 < WORD64 {
      if req + HEADER > MIN_ALLOC {
        RoundUpLeast(req + HEADER);
      }
      assert IsTightSize(req, s);
    } else {
      WrappedSize(req);
    }
  }

  /** A chunk size that a wrapped addition gives is too small. */
  lemma WrappedSize(req: nat)
    requires req < WORD64 <= req + HEADER + ALIGN - 1
    ensures RequestToSize(req) < req + HEADER
  {
  }

  lemma RequestAligned(req: nat)
    requires req < WORD64
    ensures RequestToSize(req) % ALIGN == 0
  {
  }

  lemma RequestSize(req: nat)
    requires req < 0x8000_0000 - ALIGN - HEADER
    ensures RequestToSize(req) < 0x8000_0000 && RequestToSize(req) % ALIGN == 0
    ensures RequestToSize(req) >= MIN_ALLOC && RequestToSize(req) >= req + HEADER
  {
  }

  /** The tabulated bin of a size. */
  function BinIndex2(s: nat): (r: nat) {
    if s < 1024 then s / 16
    else if s < 2048 then 56 + s / 128
    else if s < 4096 then 64 + s / 256
    else if s < 8192 then 72 + s / 512
    else if s < 16384 then 80 + s / 1024
    else if s < 32768 then 88 + s / 2048
    else if s < 65536 then 96 + s / 4096
    else if s < 131072 then 104 + s / 8192
    else if s < 262144 then 112 + s / 16384
    else 127
  }

  lemma Quotient(s: nat, p: nat)
    requires 0 < p && p * 8 <= s < p * 16
    ensures 8 <= s / p < 16
  {
    var q := s / p;
    assert s == p * q + s % p;
    assert q < 8 ==> p * q <= p * 7;
    assert q >= 16 ==> p * q >= p * 16;
  }

  lemma ShiftRange(s: nat)
    requires 1024 <= s < 262144
    ensures 7 <= 28 - Clz(s) <= 14
    ensures Pow2(28 - Clz(s)) * 8 <= s < Pow2(28 - Clz(s)) * 16
    ensures 8 <= s / Pow2(28 - Clz(s)) < 16
  {
    var n := NumBits(s);
    NumBitsBounds(s, 10);
    NumBitsBounds(s, 18);
    assert Pow2(10) == 1024;
    Pow2Add(8, 10);
    assert Pow2(8) == 256;
    NumBitsBounds(s, n);
    NumBitsBounds(s, n - 1);
    assert n - 4 == 28 - Clz(s);
    assert Pow2(n) == 2 * Pow2(n - 1) == 4 * Pow2(n - 2) == 8 * Pow2(n - 3) == 16 * Pow2(n - 4);
    Quotient(s, Pow2(n - 4));
  }

  /** The bin of a size, found with a count of leading zeroes. */
  function BinIndex(s: nat): (r: nat)
  {
    if s < 1024 then s / 16
    else if s >= 262144 then 127
    else
      ShiftRange(s);
      var bits := 28 - Clz(s);
      bits * 8 + s / Pow2(bits)
  }

  /** The fast bin computation agrees with the table on every size. */
  lemma BinIndexIsTable(s: nat)
    ensures BinIndex(s) == BinIndex2(s)
  {
    if 1024 <= s < 262144 {
      ShiftRange(s);
      var bits := 28 - Clz(s);
      assert Pow2(7) == 128 && Pow2(8) == 256 && Pow2(9) == 512 && Pow2(10) == 1024;
      assert Pow2(11) == 2048 && Pow2(12) == 4096 && Pow2(13) == 8192 && Pow2(14) == 16384;
    }
  }

  /** The bins of the sizes below `64 * 2^(4 + k)` come before bin `56 + 8 * k`. */
  lemma BandBound(s: nat)
    ensures BinIndex2(s) <= 127
    ensures s < 1024 ==> BinIndex2(s) < 64
    ensures s < 2048 <==> BinIndex2(s) < 72
    ensures s < 4096 <==> BinIndex2(s) < 80
    ensures s < 8192 <==> BinIndex2(s) < 88
    ensures s < 16384 <==> BinIndex2(s) < 96
    ensures s < 32768 <==> BinIndex2(s) < 104
    ensures s < 65536 <==> BinIndex2(s) < 112
    ensures s < 131072 <==> BinIndex2(s) < 120
    ensures s >= 262144 ==> BinIndex2(s) == 127
    ensures s >= 1024 ==> BinIndex2(s) >= 64
  {
  }

  /** Bins are ordered by size and there are 128 of them. */
  lemma BinIndexMonotone(s: nat, t: nat)
    requires s <= t
    ensures BinIndex(s) <= BinIndex(t) < NUM_BINS
  {
    hide BinIndex;
    BinIndexIsTable(s);
    BinIndexIsTable(t);
    BandBound(s);
    BandBound(t);
  }

  /** A chunk size of a small bin is determined by the bin. */
  lemma SmallBinExact(s: nat, t: nat)
    requires s % ALIGN == 0 && t % ALIGN == 0
    requires BinIndex(s) < NUM_SMALL_BINS
    requires BinIndex(t) == BinIndex(s)
    ensures s == t
  {
    hide BinIndex, BinIndex2;
    SmallBin(s);
    SmallBin(t);
    SameSlot(s, t);
  }

  /** The small bins are 16 bytes wide. */
  lemma SmallBin(s: nat)
    ensures BinIndex(s) < NUM_SMALL_BINS ==> s < 1024 && BinIndex(s) == s / 16
  {
    hide BinIndex;
    BinIndexIsTable(s);
    BandBound(s);
  }

  lemma SameSlot(s: nat, t: nat)
    requires s % 64 == 0 && t % 64 == 0 && s / 16 == t / 16
    ensures s == t
  {
    assert s == 64 * (s / 64) && t == 64 * (t / 64);
  }

  /** Truncation of a 64-bit difference to `int32`, as the remainder computation does it. */
  function Int32(x: int): (r: int)
    ensures -0x8000_0000 <= r < 0x8000_0000
    ensures (x - r) % WORD32 == 0
  {
    var w := x % WORD32;
    if w < 0x8000_0000 then w else w - WORD32
  }

  /**
   The fit test `(int)(candidate_size - size) >= 0` means what it says exactly
   when the true difference, taken modulo 2^32, keeps its sign.
   */
  lemma FitTestExact(candidate: nat, size: nat)
    requires candidate < 0x8000_0000
    ensures (Int32(candidate - size) >= 0 <==> candidate >= size)
       <==> (size <= candidate || (size - candidate - 1) % WORD32 < 0x8000_0000)
  {
    if size > candidate {
      var d := size - candidate;
      var w := (candidate - size) % WORD32;
      assert w == WORD32 - 1 - (d - 1) % WORD32 by {
        var q := (d - 1) / WORD32;
        assert d - 1 == q * WORD32 + (d - 1) % WORD32;
        assert -d == -(q + 1) * WORD32 + (WORD32 - 1 - (d - 1) % WORD32);
      }
    }
  }

  /** A chunk that fits passes the test, whatever the request; below 2^31 only such chunks do. */
  lemma FitPasses(candidate: nat, size: nat)
    requires candidate < MAX_SIZE
    ensures candidate >= size ==> Int32(candidate - size) == candidate - size
    ensures size < MAX_SIZE ==> Int32(candidate - size) == candidate - size
  {
  }

  /** For chunks and requests below 2^31 the difference is not truncated. */
  lemma FitTestInRange(candidate: nat, size: nat)
    requires candidate < 0x8000_0000 && size < 0x8000_0000
    ensures Int32(candidate - size) == candidate - size
  {
  }

  /** A 4 GB request passes the fit test against a 1 MB chunk. */
  lemma FitTestFailure()
    ensures RequestToSize(0xFFFF_FFE0) == WORD32
    ensures Int32(0x10_0000 - RequestToSize(0xFFFF_FFE0)) == 0x10_0000
  {
  }
}
