/**
 Whole runs of a pool, as its clients see them.
 */
module PoolRuns {
  import opened Words
  import opened Sizes
  import opened Links
  import opened Bins
  import opened Chunks
  import opened Tags
  import opened PoolState
  import opened ReallocState
  import opened Pool
  import opened Conservation
  import opened AreaRing

  datatype Snapshot = Snapshot(mem: Mem, first: int, areas: seq<Area>, heap: Heap, initSize: nat, moreSize: nat,
                               obtained: seq<int>, returned: seq<int>)

  /** Calls to the pool, and the client writing a word of one of its blocks. */
  datatype Op =
    | DoAlloc(req: nat, raw: nat)
    | DoFree(ptr: int)
    | DoRealloc(ptr: int, req: nat, raw: nat)
    | DoReset
    | DoWrite(block: int, address: int, value: int)

  /** What the debug checks of the pool demand of every chunk of every area in the ring. */
  ghost predicate Sound(s: Snapshot) {
    && Tiled(s.heap, s.areas) && Coalesced(s.heap) && Tagged(s.mem, s.heap, s.areas)
    && RingOk(s.mem, s.first, s.areas, s.obtained, s.returned)
  }

  /** Some free chunk holds `size` bytes. */
  ghost predicate Fits(s: Snapshot, size: nat) { !NothingFits(FreeMap(s.heap), size) }

  /** The areas once a request is served. */
  ghost function Grown(s: Snapshot, size: nat, raw: nat): seq<Area> {
    AreasGrown(s.initSize, s.moreSize, s.areas, Fits(s, size), size, raw)
  }

  ghost predicate AllocStep(s: Snapshot, s': Snapshot, req: nat, raw: nat, r: Outcome) {
    && req < WORD64
    && var size := RequestToSize(req);
       match r
       case Block(ptr) =>
         && Allocated(s.heap, s'.heap, size, ptr) && SamePayloads(s.mem, s'.mem, Live(s.heap))
         && s'.returned == s.returned
         && (if Fits(s, size) then
               && s'.areas == s.areas && s'.obtained == s.obtained
               && TakenFrom(FreeMap(s.heap), FreeMap(s'.heap), size, ptr - HEADER)
               && CutFrom(FreeMap(s.heap), s'.heap, size, ptr)
             else
               && raw != 0 && s'.obtained == s.obtained + [raw]
               && InNewArea(s.initSize, s.moreSize, s.areas, s.heap, s'.areas, s'.heap, size, raw, ptr))
       case Null => s' == s && !Fits(s, size) && s.moreSize == 0 && (s.areas != [] || size > s.initSize)
       case Threw =>
         && s' == s && !Fits(s, size) && raw == 0
         && (s.moreSize != 0 || (s.areas == [] && size <= s.initSize))
  }

  ghost predicate FreeStep(s: Snapshot, s': Snapshot, ptr: int) {
    if ptr == 0 then s' == s else
    && ptr - HEADER in Live(s.heap)
    && Live(s'.heap) == Live(s.heap) - {ptr - HEADER}
    && MetaOnly(s.mem, s'.mem, s.heap, s.areas) && SamePayloads(s.mem, s'.mem, Live(s.heap))
    && AreasFreed(s.moreSize, s.heap, s.areas, s'.areas, ptr - HEADER)
    && s'.obtained == s.obtained && Returns(s.returned, s'.returned, |s.areas| - |s'.areas|)
  }

  ghost predicate ReallocStep(s: Snapshot, s': Snapshot, ptr: int, req: nat, raw: nat, r: Outcome) {
    if ptr == 0 then AllocStep(s, s', req, raw, r) else
    && ptr - HEADER in Live(s.heap) && req < WORD64
    && var c, size := ptr - HEADER, RequestToSize(req);
       match r
       case Block(p) =>
         && Reallocated(s.mem, s'.mem, s.heap, s'.heap, c, size, p) && Placed(s.heap, c, size, p)
         && CutToSize(s.heap, s'.heap, c, size, p)
         && (if !NoRoomNear(s.heap, c, size) then s'.areas == s.areas
             else AreasMoved(s.moreSize, s.heap, Grown(s, size, raw), s'.areas, c, p))
         && s.obtained <= s'.obtained && s.returned <= s'.returned
       case Null => false
       case Threw => s' == s && NoRoomNear(s.heap, c, size) && !Fits(s, size)
  }

  /** How one operation with outcome `r` may change a pool. */
  ghost predicate Step(s: Snapshot, s': Snapshot, op: Op, r: Outcome) {
    && s'.initSize == s.initSize && s'.moreSize == s.moreSize
    && match op
       case DoAlloc(req, raw) => AllocStep(s, s', req, raw, r)
       case DoFree(ptr) => FreeStep(s, s', ptr)
       case DoRealloc(ptr, req, raw) => ReallocStep(s, s', ptr, req, raw, r)
       case DoReset => Live(s'.heap) == map[] && s' == s.(mem := s'.mem, heap := s'.heap)
       case DoWrite(c, a, v) =>
         c in Live(s.heap) && c + HEADER <= a < c + Live(s.heap)[c] && s' == s.(mem := s.mem[a := v])
  }

  ghost function StateOf(pool: AllocPool): Snapshot
    reads pool
  {
    Snapshot(pool.mem, pool.first, pool.areas, pool.heap, pool.initSize, pool.moreSize, pool.obtained, pool.returned)
  }

  ghost predicate Serves(s: Snapshot, req: nat, raw: nat) {
    CanServe(s.initSize, s.moreSize, s.areas, s.heap, req, raw)
  }

  /** What the client must respect: only its own live blocks, only servable requests where memory is needed. */
  ghost predicate Legal(s: Snapshot, op: Op) {
    match op
    case DoAlloc(req, raw) => Serves(s, req, raw)
    case DoFree(ptr) => ptr == 0 || ptr - HEADER in Live(s.heap)
    case DoRealloc(ptr, req, raw) =>
      && (ptr == 0 || ptr - HEADER in Live(s.heap)) && req < WORD64 && RequestToSize(req) >= MIN_ALLOC
      && (ptr == 0 || NoRoomNear(s.heap, ptr - HEADER, RequestToSize(req)) ==> Serves(s, req, raw))
    case DoReset => true
    case DoWrite(c, a, v) => c in Live(s.heap) && c + HEADER <= a < c + Live(s.heap)[c]
  }

  /** Every call of Alloc, Free, Realloc and FreeAllInternal is a step. */
  method Execute(pool: AllocPool, op: Op) returns (r: Outcome)
    requires pool.Valid() && Legal(StateOf(pool), op)
    modifies pool
    ensures pool.Valid() && Sound(StateOf(pool))
    ensures Step(old(StateOf(pool)), StateOf(pool), op, r)
  {
    hide PoolOk, SamePayloads, Live, Allocated, Reallocated, Tiled, Coalesced, Tagged, RequestToSize, Placed,
      NothingFits, TakenFrom, AreasMoved, AreasFreed, HeadersOnly, MetaOnly, NoRoomNear, AreaWanted, RingOk;
    r := Null;
    match op {
      case DoAlloc(req, raw) => r := pool.Alloc(req, raw);
      case DoFree(ptr) => pool.Free(ptr);
      case DoRealloc(ptr, req, raw) => r := pool.Realloc(ptr, req, raw);
      case DoReset => pool.FreeAllInternal();
      case DoWrite(c, a, v) =>
        ClientWrite(pool, c, a, v);
    }
    ValidIsSound(pool);
  }

  lemma ValidIsSound(pool: AllocPool)
    requires pool.Valid()
    ensures Sound(StateOf(pool))
  {
  }

  method ClientWrite(pool: AllocPool, c: int, a: int, v: int)
    requires pool.Valid() && c in Live(pool.heap) && c + HEADER <= a < c + Live(pool.heap)[c]
    modifies pool`mem
    ensures pool.Valid() && pool.mem == old(pool.mem)[a := v]
  {
    hide PoolOk, Tiled, RingOk;
    PoolFacts(pool.mem, pool.blocks, pool.areas, pool.heap, pool.free, pool.lists, c);
    RingAfterWrite(pool.mem, pool.heap, pool.first, pool.areas, pool.obtained, pool.returned, c, a, v);
    PayloadOutside(pool.heap, pool.areas, c, a);
    PayloadWrite(pool.mem, pool.mem[a := v], pool.blocks, pool.areas, pool.heap, pool.free, pool.lists);
    pool.mem := pool.mem[a := v];
  }

  // ----- all runs

  /** States, and the operation and outcome between each two of them. */
  ghost predicate IsRun(states: seq<Snapshot>, ops: seq<Op>, outs: seq<Outcome>) {
    && |states| == |ops| + 1 && |outs| == |ops|
    && (forall i :: 0 <= i < |states| ==> Sound(states[i]))
    && (forall i :: 0 <= i < |ops| ==> Step(states[i], states[i + 1], ops[i], outs[i]))
  }

  lemma RunGrows(states: seq<Snapshot>, ops: seq<Op>, outs: seq<Outcome>, s: Snapshot, op: Op, r: Outcome)
    requires IsRun(states, ops, outs) && Sound(s) && Step(states[|ops|], s, op, r)
    ensures IsRun(states + [s], ops + [op], outs + [r])
  {
    hide Step, Sound;
    var states', ops', outs' := states + [s], ops + [op], outs + [r];
    forall i | 0 <= i < |ops'| ensures Step(states'[i], states'[i + 1], ops'[i], outs'[i]) {
      if i < |ops| {
        assert Step(states[i], states[i + 1], ops[i], outs[i]);
      }
    }
  }

  lemma RunShrinks(states: seq<Snapshot>, ops: seq<Op>, outs: seq<Outcome>, n: nat)
    requires IsRun(states, ops, outs) && n <= |ops|
    ensures IsRun(states[..n + 1], ops[..n], outs[..n])
  {
    hide Step, Sound;
  }

  /** The operations are the ones the client chooses, knowing the outcomes so far. */
  ghost predicate Follows(client: seq<Outcome> -> Op, ops: seq<Op>, outs: seq<Outcome>) {
    |ops| == |outs| && forall i :: 0 <= i < |ops| ==> ops[i] == client(outs[..i])
  }

  /** Whatever the outcomes, the first `n` operations of the client are legal when they are reached. */
  ghost predicate Careful(s: Snapshot, client: seq<Outcome> -> Op, n: nat) {
    forall states, ops, outs ::
      IsRun(states, ops, outs) && states[0] == s && Follows(client, ops, outs) && |ops| < n ==>
        Legal(states[|ops|], client(outs))
  }

  /**
   Any careful client drives a pool through a run: every state on the way is sound,
   the free bytes and the bytes in use account for every byte of its areas, and the
   areas and what was returned account for every pointer obtained.
   */
  method Drive(pool: AllocPool, client: seq<Outcome> -> Op, n: nat)
    returns (outs: seq<Outcome>, ghost states: seq<Snapshot>, ghost ops: seq<Op>)
    requires pool.Valid() && Careful(StateOf(pool), client, n)
    modifies pool
    ensures pool.Valid() && |ops| == n && Follows(client, ops, outs)
    ensures IsRun(states, ops, outs) && states[0] == old(StateOf(pool)) && states[n] == StateOf(pool)
    ensures forall i :: 0 <= i <= n ==>
      var s := states[i];
      && MapSum(FreeMap(s.heap)) + MapSum(Live(s.heap)) == AreaTotal(s.areas)
      && Accounted(s.mem, s.areas, s.obtained, s.returned)
  {
    hide Step, Sound, Legal, Accounted;
    ValidIsSound(pool);
    outs, states, ops := [], [StateOf(pool)], [];
    for k := 0 to n
      invariant pool.Valid() && |ops| == k && Follows(client, ops, outs)
      invariant IsRun(states, ops, outs) && states[0] == old(StateOf(pool)) && states[k] == StateOf(pool)
    {
      var op := client(outs);
      assert Legal(states[|ops|], client(outs));
      var r := Execute(pool, op);
      RunGrows(states, ops, outs, StateOf(pool), op, r);
      FollowsGrows(client, ops, outs, r);
      states, ops, outs := states + [StateOf(pool)], ops + [op], outs + [r];
    }
    forall i | 0 <= i <= n
      ensures
        var s := states[i];
        && MapSum(FreeMap(s.heap)) + MapSum(Live(s.heap)) == AreaTotal(s.areas)
        && Accounted(s.mem, s.areas, s.obtained, s.returned)
    {
      SoundConserves(states[i]);
    }
  }

  lemma FollowsGrows(client: seq<Outcome> -> Op, ops: seq<Op>, outs: seq<Outcome>, r: Outcome)
    requires Follows(client, ops, outs)
    ensures Follows(client, ops + [client(outs)], outs + [r])
  {
    var ops', outs' := ops + [client(outs)], outs + [r];
    forall i | 0 <= i < |ops'| ensures ops'[i] == client(outs'[..i]) {
      assert outs'[..i] == outs[..i];
      assert outs[..|outs|] == outs;
    }
  }

  lemma SoundConserves(s: Snapshot)
    requires Sound(s)
    ensures MapSum(FreeMap(s.heap)) + MapSum(Live(s.heap)) == AreaTotal(s.areas)
    ensures Accounted(s.mem, s.areas, s.obtained, s.returned)
  {
    BytesConserved(s.heap, s.areas);
  }

  // ----- what a block keeps

  /** The client gives block `c` up or has it resized. */
  predicate GivesUp(op: Op, c: int) {
    match op
    case DoAlloc(_, _) => false
    case DoFree(ptr) => ptr - HEADER == c
    case DoRealloc(ptr, _, _) => ptr - HEADER == c
    case DoReset => true
    case DoWrite(_, _, _) => false
  }

  /** The last value the owner of block `c` wrote at `a`, or the initial one. */
  function LastWrite(ops: seq<Op>, c: int, a: int, initial: int): int {
    if ops == [] then initial
    else
      var op := ops[|ops| - 1];
      if op.DoWrite? && op.block == c && op.address == a then op.value
      else LastWrite(ops[..|ops| - 1], c, a, initial)
  }

  /** The block is still there, of the same size, and its words are what the owner last wrote. */
  ghost predicate Holds(s: Snapshot, s': Snapshot, ops: seq<Op>, c: int) {
    && c in Live(s.heap) && c in Live(s'.heap) && Live(s'.heap)[c] == Live(s.heap)[c]
    && forall a :: c + HEADER <= a < c + Live(s.heap)[c] ==> Rd(s'.mem, a) == LastWrite(ops, c, a, Rd(s.mem, a))
  }

  lemma StepHolds(s: Snapshot, s': Snapshot, op: Op, r: Outcome, c: int)
    requires Sound(s) && Step(s, s', op, r) && c in Live(s.heap) && !GivesUp(op, c)
    ensures c in Live(s'.heap) && Live(s'.heap)[c] == Live(s.heap)[c]
    ensures forall a :: c + HEADER <= a < c + Live(s.heap)[c] ==>
      Rd(s'.mem, a) == if op.DoWrite? && op.block == c && op.address == a then op.value else Rd(s.mem, a)
  {
    hide Tiled, Coalesced, Tagged, RingOk, MetaOnly, AreasFreed, AreasMoved, Placed, TakenFrom, NothingFits,
      RequestToSize, AreaWanted, AreasGrown, KeepsPrefix, LosesWord, Clobbers, NoRoomNear;
    var live := Live(s.heap);
    match op {
      case DoWrite(b, a, v) =>
        if b != c {
          BlocksApart(s, c, b);
        }
      case DoFree(ptr) =>
        if ptr != 0 {
          assert Live(s'.heap)[c] == live[c];
        }
      case DoRealloc(ptr, req, raw) =>
        if ptr != 0 && r.Block? {
          assert c in live - {ptr - HEADER} && c != r.ptr - HEADER;
          assert Live(s'.heap)[c] == live[c];
          assert (live - {ptr - HEADER})[c] == live[c];
        }
      case DoAlloc(_, _) =>
      case DoReset =>
    }
  }

  lemma HoldsYet(s: Snapshot, ops: seq<Op>, c: int)
    requires c in Live(s.heap) && ops == []
    ensures Holds(s, s, ops, c)
  {
  }

  lemma HoldsOn(s: Snapshot, s1: Snapshot, s2: Snapshot, ops: seq<Op>, r: Outcome, c: int)
    requires ops != [] && Holds(s, s1, ops[..|ops| - 1], c) && Sound(s1) && Step(s1, s2, ops[|ops| - 1], r)
    requires !GivesUp(ops[|ops| - 1], c)
    ensures Holds(s, s2, ops, c)
  {
    hide Sound, Step, Live;
    StepHolds(s1, s2, ops[|ops| - 1], r, c);
  }

  /** Over any run in which it is not given up, a block stays where it is and only its owner changes its words. */
  lemma {:induction false} BlockHolds(states: seq<Snapshot>, ops: seq<Op>, outs: seq<Outcome>, c: int)
    requires IsRun(states, ops, outs) && c in Live(states[0].heap)
    requires forall i :: 0 <= i < |ops| ==> !GivesUp(ops[i], c)
    ensures Holds(states[0], states[|ops|], ops, c)
    decreases |ops|
  {
    hide Step, Sound, Live, Holds;
    if |ops| == 0 {
      HoldsYet(states[0], ops, c);
    } else {
      var n := |ops| - 1;
      RunShrinks(states, ops, outs, n);
      assert ops[..n] == ops[..|ops| - 1];
      BlockHolds(states[..n + 1], ops[..n], outs[..n], c);
      HoldsOn(states[0], states[n], states[n + 1], ops, outs[n], c);
    }
  }

  /** In every sound state, blocks are aligned and their payloads are disjoint. */
  lemma BlocksApart(s: Snapshot, c: int, d: int)
    requires Sound(s) && c in Live(s.heap) && d in Live(s.heap) && c != d
    ensures c + Live(s.heap)[c] <= d || d + Live(s.heap)[d] <= c
    ensures (c + HEADER) % ALIGN == 0
  {
    HomeInAreas(s.heap, s.areas, c);
    HomeInAreas(s.heap, s.areas, d);
  }

  /**
   A block obtained for `req` bytes has room for them, and holds what its owner last
   wrote, as long as it is not given up.
   */
  lemma AllocatedRoom(states: seq<Snapshot>, ops: seq<Op>, outs: seq<Outcome>)
    requires IsRun(states, ops, outs) && |ops| > 0 && ops[0].DoAlloc? && outs[0].Block?
    requires ops[0].req + HEADER + ALIGN - 1 < WORD64
    requires forall i :: 1 <= i < |ops| ==> !GivesUp(ops[i], outs[0].ptr - HEADER)
    ensures var c := outs[0].ptr - HEADER;
      && c !in Live(states[0].heap) && Holds(states[1], states[|ops|], ops[1..], c)
      && ops[0].req <= Live(states[|ops|].heap)[c] - HEADER
  {
    var c := outs[0].ptr - HEADER;
    assert Step(states[0], states[1], ops[0], outs[0]);
    RequestToSizeExact(ops[0].req);
    hide Step, Sound, RequestToSize;
    BlockHolds(states[1..], ops[1..], outs[1..], c);
  }

  // ----- conservation

  /** Two runs that end with the same areas and blocks end with the same chunks, however they got there. */
  lemma RunsConverge(states: seq<Snapshot>, ops: seq<Op>, outs: seq<Outcome>,
                     states': seq<Snapshot>, ops': seq<Op>, outs': seq<Outcome>)
    requires IsRun(states, ops, outs) && IsRun(states', ops', outs')
    requires states[|ops|].areas == states'[|ops'|].areas
    requires Live(states[|ops|].heap) == Live(states'[|ops'|].heap)
    ensures states[|ops|].heap == states'[|ops'|].heap
  {
    BlocksDetermineHeap(states[|ops|].heap, states'[|ops'|].heap, states[|ops|].areas);
  }

  lemma FixedStep(s: Snapshot, s': Snapshot, op: Op, r: Outcome)
    requires Step(s, s', op, r) && s.moreSize == 0 && s.areas != []
    ensures s'.areas == s.areas && s'.moreSize == 0
  {
    hide Tiled, Coalesced, Tagged, RingOk, MetaOnly, Placed, TakenFrom, NothingFits, RequestToSize, KeepsPrefix,
      LosesWord, Clobbers, NoRoomNear, Live, Allocated, Reallocated;
  }

  /** A fixed pool that has its area keeps exactly that area over every run. */
  lemma {:induction false} FixedAreas(states: seq<Snapshot>, ops: seq<Op>, outs: seq<Outcome>, i: nat)
    requires IsRun(states, ops, outs) && i <= |ops| && states[0].moreSize == 0 && states[0].areas != []
    ensures states[i].areas == states[0].areas && states[i].moreSize == 0
    decreases i
  {
    hide Step, Sound;
    if i > 0 {
      FixedAreas(states, ops, outs, i - 1);
      FixedStep(states[i - 1], states[i], ops[i - 1], outs[i - 1]);
    }
  }

  ghost predicate OnlyFrees(ops: seq<Op>) {
    forall i :: 0 <= i < |ops| ==> ops[i].DoFree? && ops[i].ptr != 0
  }

  ghost function FreedBlocks(ops: seq<Op>): set<int>
    requires OnlyFrees(ops)
  {
    set i | 0 <= i < |ops| :: ops[i].ptr - HEADER
  }

  lemma NothingFreed(ops: seq<Op>)
    requires ops == []
    ensures OnlyFrees(ops) && FreedBlocks(ops) == {}
  {
  }

  lemma OneMoreFreed(ops: seq<Op>, n: nat)
    requires OnlyFrees(ops) && |ops| == n + 1
    ensures OnlyFrees(ops[..n]) && ops[n].DoFree? && ops[n].ptr != 0
    ensures FreedBlocks(ops) == FreedBlocks(ops[..n]) + {ops[n].ptr - HEADER}
  {
  }

  /** The set of blocks freed by a run of calls to `Free`, one after the other. */
  lemma {:induction false} FreeingRun(states: seq<Snapshot>, ops: seq<Op>, outs: seq<Outcome>)
    requires IsRun(states, ops, outs) && OnlyFrees(ops)
    ensures Live(states[|ops|].heap) == Live(states[0].heap) - FreedBlocks(ops)
    decreases |ops|
  {
    hide Sound, Live, FreedBlocks, MetaOnly, SamePayloads, AreasFreed, OnlyFrees;
    if |ops| == 0 {
      NothingFreed(ops);
    } else {
      var n := |ops| - 1;
      RunShrinks(states, ops, outs, n);
      OneMoreFreed(ops, n);
      FreeingRun(states[..n + 1], ops[..n], outs[..n]);
      assert Step(states[n], states[n + 1], ops[n], outs[n]);
    }
  }

  /** Each area is one free chunk, and there are no others. */
  ghost predicate AllFree(s: Snapshot) {
    && (forall a :: a in s.areas ==> a.First() in s.heap && s.heap[a.First()] == Chunk(a.size, false, a))
    && (forall c :: c in s.heap ==> exists a :: a in s.areas && c == a.First())
  }

  /** In a fixed pool, freeing all blocks in any order leaves the areas there were, each one free chunk. */
  lemma FreeingAllFixed(states: seq<Snapshot>, ops: seq<Op>, outs: seq<Outcome>)
    requires IsRun(states, ops, outs) && OnlyFrees(ops) && states[0].moreSize == 0
    requires Live(states[0].heap).Keys == FreedBlocks(ops)
    ensures states[|ops|].areas == states[0].areas && AllFree(states[|ops|])
  {
    FreeingRun(states, ops, outs);
    assert Live(states[|ops|].heap) == map[];
    EmptyPool(states[|ops|].heap, states[|ops|].areas);
    FreesKeepFixed(states, ops, outs);
  }

  lemma {:induction false} FreesKeepFixed(states: seq<Snapshot>, ops: seq<Op>, outs: seq<Outcome>)
    requires IsRun(states, ops, outs) && OnlyFrees(ops) && states[0].moreSize == 0
    ensures states[|ops|].areas == states[0].areas && states[|ops|].moreSize == 0
    decreases |ops|
  {
    if |ops| > 0 {
      hide Sound, MetaOnly, SamePayloads, Live;
      var n := |ops| - 1;
      RunShrinks(states, ops, outs, n);
      FreesKeepFixed(states[..n + 1], ops[..n], outs[..n]);
      assert Step(states[n], states[n + 1], ops[n], outs[n]);
    }
  }

  /** Some block lies in area `a`. */
  ghost predicate Occupied(h: Heap, a: Area) {
    exists c :: c in Live(h) && c in h && h[c].home == a
  }

  /** A freed block takes its area along exactly when it was the last in it. */
  lemma FreeOccupied(s: Snapshot, s': Snapshot, ptr: int, r: Outcome, a: Area)
    requires Sound(s) && Sound(s') && ptr != 0 && FreeStep(s, s', ptr) && s.moreSize != 0
    ensures a in s'.areas <==> a in s.areas && (Occupied(s'.heap, a) || !Occupied(s.heap, a))
    ensures Occupied(s'.heap, a) ==> Occupied(s.heap, a)
  {
    var c := ptr - HEADER;
    FreedAreas(s.moreSize, s.heap, s.areas, s'.areas, c);
    hide Tiled, Coalesced, Tagged, RingOk, MetaOnly, SamePayloads, AreasFreed, Live;
    LiveSize(s.heap, c);
    forall d | d in Live(s'.heap) ensures d in Live(s.heap) && d != c && d in s.heap && d in s'.heap
      && s'.heap[d].home == s.heap[d].home
    {
      LiveSize(s.heap, d);
      LiveSize(s'.heap, d);
      HomeInAreas(s'.heap, s'.areas, d);
      HomeKept(s'.heap, s.heap, s'.areas, s.areas, d);
    }
    LastInLive(s.heap, c, a);
  }

  /** In a growable pool the area of the last block goes, and no other. */
  lemma FreedAreas(moreSize: nat, h: Heap, areas: seq<Area>, areas': seq<Area>, c: int)
    requires AreasOk(areas) && c in h && AreasFreed(moreSize, h, areas, areas', c) && moreSize != 0
    ensures forall a :: a in areas' <==> a in areas && !LastIn(h, c, a)
  {
    if !forall a :: a in areas ==> !LastIn(h, c, a) {
      var k: nat :| k < |areas| && LastIn(h, c, areas[k]) && areas' == Dropped(areas, k);
      DroppedOk(areas, k);
    }
  }

  lemma HasFirst(areas: seq<Area>)
    ensures areas == [] || areas[0] in areas
  {
  }

  lemma {:induction false} FreesOccupied(states: seq<Snapshot>, ops: seq<Op>, outs: seq<Outcome>, a: Area)
    requires IsRun(states, ops, outs) && OnlyFrees(ops) && states[0].moreSize != 0
    ensures states[|ops|].moreSize != 0
    ensures a in states[|ops|].areas
       <==> a in states[0].areas && (Occupied(states[|ops|].heap, a) || !Occupied(states[0].heap, a))
    ensures Occupied(states[|ops|].heap, a) ==> Occupied(states[0].heap, a)
    decreases |ops|
  {
    hide Sound, Occupied, FreeStep;
    if |ops| > 0 {
      var n := |ops| - 1;
      RunShrinks(states, ops, outs, n);
      FreesOccupied(states[..n + 1], ops[..n], outs[..n], a);
      assert Step(states[n], states[n + 1], ops[n], outs[n]);
      FreeOccupied(states[n], states[n + 1], ops[n].ptr, outs[n], a);
    }
  }

  /**
   In a growable pool, freeing all blocks in any order leaves exactly the areas that
   held no block, each one free chunk.  If every area held one, every pointer the
   callback ever gave out has gone back to it.
   */
  lemma FreeingAllGrowable(states: seq<Snapshot>, ops: seq<Op>, outs: seq<Outcome>)
    requires IsRun(states, ops, outs) && OnlyFrees(ops) && states[0].moreSize != 0
    requires Live(states[0].heap).Keys == FreedBlocks(ops)
    ensures AllFree(states[|ops|])
    ensures forall a :: a in states[|ops|].areas <==> a in states[0].areas && !Occupied(states[0].heap, a)
    ensures (forall a :: a in states[0].areas ==> Occupied(states[0].heap, a)) ==>
      multiset(states[|ops|].obtained) == multiset(states[|ops|].returned)
  {
    FreeingRun(states, ops, outs);
    var last := states[|ops|];
    assert Live(last.heap) == map[];
    EmptyPool(last.heap, last.areas);
    forall a ensures a in last.areas <==> a in states[0].areas && !Occupied(states[0].heap, a) {
      FreesOccupied(states, ops, outs, a);
      assert !Occupied(last.heap, a);
    }
    if forall a :: a in states[0].areas ==> Occupied(states[0].heap, a) {
      HasFirst(last.areas);
      AllReturned(last.mem, last.areas, last.obtained, last.returned);
      assert last.returned + Raws(last.mem, []) == last.returned;
    }
  }
}
