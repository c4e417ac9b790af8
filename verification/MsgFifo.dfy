/**
 The message ring of common/MsgFifo.h: one thread writes, one performs and one
 frees, and each owns one of the three heads.

 Every load and store of a head, and every access to a slot, is a step of its
 own; the steps of the three threads interleave in any order.  `MsgFifoNoFree`
 is the same ring without the third thread: there the writer is held back by
 the read head.
 */
module MsgFifo {
  import opened Words

  /** `(pos + 1) & (N - 1)` for the power of two `N == 2^k`. */
  function NextPos(k: nat, pos: nat): nat {
    And(pos + 1, Pow2(k) - 1)
  }

  /** The slot of message number `n` in a ring of `m` slots: the remainder, by counting rounds. */
  function Slot(n: nat, m: nat): (r: nat)
    requires m > 0
    ensures r < m
  {
    if n < m then n else Slot(n - m, m)
  }

  lemma {:induction false} HalfSlot(x: nat, m: nat)
    requires m > 0
    ensures Slot(x, 2 * m) == 2 * Slot(x / 2, m) + x % 2
  {
    if x >= 2 * m {
      HalfSlot(x - 2 * m, m);
      assert (x - 2 * m) / 2 == x / 2 - m;
    }
  }

  /** Masking with `2^k - 1` is the remainder modulo `2^k`. */
  lemma {:induction false} AndMask(x: nat, k: nat)
    ensures And(x, Pow2(k) - 1) == Slot(x, Pow2(k))
    decreases k
  {
    if k == 0 {
      AndBound(x, 0);
    } else {
      HalfSlot(x, Pow2(k - 1));
      AndMask(x / 2, k - 1);
      assert (Pow2(k) - 1) / 2 == Pow2(k - 1) - 1;
      AndHalf(x, Pow2(k) - 1);
    }
  }

  lemma {:induction false} SlotSucc(n: nat, m: nat)
    requires m > 0
    ensures Slot(Slot(n, m) + 1, m) == Slot(n + 1, m)
  {
    if n >= m {
      SlotSucc(n - m, m);
    }
  }

  /** A head that has passed `n` messages moves on to where message `n + 1` lies. */
  lemma NextPosCounts(k: nat, n: nat)
    ensures NextPos(k, Slot(n, Pow2(k))) == Slot(n + 1, Pow2(k))
  {
    AndMask(Slot(n, Pow2(k)) + 1, k);
    SlotSucc(n, Pow2(k));
  }

  /** Message numbers closer than `m` lie in different slots. */
  lemma {:induction false} SlotsApart(i: nat, j: nat, m: nat)
    requires i < j < i + m
    ensures Slot(i, m) != Slot(j, m)
    decreases i
  {
    if i >= m {
      SlotsApart(i - m, j - m, m);
    }
  }

  // ----- states

  datatype Writer<Msg> =
    | Idle
    | Loaded(next: nat, data: Msg)
    | Admitted(next: nat, data: Msg)
    | Stored(next: nat, data: Msg)

  datatype Performer = Waiting | HasData | Performed

  datatype Freer = Resting | NeedsFree | Released

  /**
   The fields of the ring with `2^k` slots, what each thread is about to do,
   and the history: the messages written, performed and freed so far.
   */
  datatype State<Msg> = State(
    k: nat, reclaim: bool, items: seq<Msg>,
    writeHead: nat, readHead: nat, freeHead: nat,
    writer: Writer<Msg>, performer: Performer, freer: Freer,
    written: seq<Msg>, performed: seq<Msg>, freed: seq<Msg>)
  {
    function Size(): nat { Pow2(k) }

    /** The head that the writer must not run into. */
    function Limit(): nat { if reclaim then freeHead else readHead }

    /** Number of messages the limiting thread is done with. */
    function Done(): nat {
      if reclaim then |freed| - (if freer.Released? && |freed| > 0 then 1 else 0)
      else |performed| - (if performer.Performed? && |performed| > 0 then 1 else 0)
    }

    /** Number of messages the performer has moved past. */
    function Read(): nat { |performed| - (if performer.Performed? && |performed| > 0 then 1 else 0) }

    /** Number of messages the freer has moved past. */
    function Freed(): nat { |freed| - (if freer.Released? && |freed| > 0 then 1 else 0) }

    /** Messages written and not yet given up. */
    function Outstanding(): int { |written| - Done() }
  }

  function Init<Msg>(k: nat, reclaim: bool, items: seq<Msg>): State<Msg> {
    State(k, reclaim, items, 0, 0, 0, Idle, Waiting, Resting, [], [], [])
  }

  datatype Step<Msg> =
    | LoadWrite(data: Msg)  // Write: next = NextPos(mWriteHead.load())
    | LoadLimit             // Write: next == mFreeHead.load(), or mReadHead without a freer
    | StoreItem             // Write: mItems[next] = data
    | StoreWrite            // Write: mWriteHead.store(next)
    | TestData              // Perform: HasData()
    | PerformItem           // Perform: mItems[next].Perform()
    | StoreRead             // Perform: mReadHead.store(next)
    | TestFree              // Free: NeedsFree()
    | FreeItem              // Free: mItems[next].Free()
    | StoreFree             // Free: mFreeHead.store(next)

  ghost predicate Enabled<Msg>(s: State<Msg>, step: Step<Msg>) {
    match step
    case LoadWrite(_) => s.writer.Idle?
    case LoadLimit => s.writer.Loaded?
    case StoreItem => s.writer.Admitted? && s.writer.next < |s.items|
    case StoreWrite => s.writer.Stored?
    case TestData => s.performer.Waiting?
    case PerformItem => s.performer.HasData? && NextPos(s.k, s.readHead) < |s.items|
    case StoreRead => s.performer.Performed?
    case TestFree => s.reclaim && s.freer.Resting?
    case FreeItem => s.reclaim && s.freer.NeedsFree? && NextPos(s.k, s.freeHead) < |s.items|
    case StoreFree => s.reclaim && s.freer.Released?
  }

  ghost function Do<Msg>(s: State<Msg>, step: Step<Msg>): State<Msg>
    requires Enabled(s, step)
  {
    match step
    case LoadWrite(data) => s.(writer := Loaded(NextPos(s.k, s.writeHead), data))
    case LoadLimit =>
      s.(writer := if s.writer.next == s.Limit() then Idle else Admitted(s.writer.next, s.writer.data))
    case StoreItem =>
      s.(items := s.items[s.writer.next := s.writer.data], writer := Stored(s.writer.next, s.writer.data))
    case StoreWrite =>
      s.(writeHead := s.writer.next, writer := Idle, written := s.written + [s.writer.data])
    case TestData => s.(performer := if s.readHead != s.writeHead then HasData else Waiting)
    case PerformItem =>
      s.(performed := s.performed + [s.items[NextPos(s.k, s.readHead)]], performer := Performed)
    case StoreRead => s.(readHead := NextPos(s.k, s.readHead), performer := Waiting)
    case TestFree => s.(freer := if s.freeHead != s.readHead then NeedsFree else Resting)
    case FreeItem =>
      s.(freed := s.freed + [s.items[NextPos(s.k, s.freeHead)]], freer := Released)
    case StoreFree => s.(freeHead := NextPos(s.k, s.freeHead), freer := Resting)
  }

  // ----- the invariant

  /** The slots of the messages that are not given up yet hold those messages. */
  ghost predicate SlotsHold<Msg>(s: State<Msg>) {
    && |s.items| == s.Size()
    && forall j {:trigger s.written[j]} :: s.Done() <= j < |s.written| ==>
      s.items[Slot(j + 1, s.Size())] == s.written[j]
  }

  ghost predicate HeadsCount<Msg>(s: State<Msg>) {
    && s.writeHead == Slot(|s.written|, s.Size())
    && s.readHead == Slot(s.Read(), s.Size())
    && (s.reclaim ==> s.freeHead == Slot(s.Freed(), s.Size()))
  }

  /** Messages are performed in the order written, and freed in the order performed. */
  ghost predicate InOrder<Msg>(s: State<Msg>) {
    s.performed <= s.written && s.freed <= s.performed
  }

  ghost predicate ThreadsOk<Msg>(s: State<Msg>) {
    && (!s.writer.Idle? ==> s.writer.next == Slot(|s.written| + 1, s.Size()))
    && (s.writer.Admitted? || s.writer.Stored? ==> s.Outstanding() + 1 < s.Size())
    && (s.writer.Stored? ==> s.writer.next < |s.items| && s.items[s.writer.next] == s.writer.data)
    && (s.performer.HasData? ==> s.Read() < |s.written|)
    && (s.performer.Performed? ==> |s.performed| > 0)
    && (s.freer.NeedsFree? ==> s.Freed() < s.Read())
    && (s.freer.Released? ==> |s.freed| > 0 && |s.freed| <= s.Read())
  }

  ghost predicate Inv<Msg>(s: State<Msg>) {
    && SlotsHold(s) && HeadsCount(s) && InOrder(s) && ThreadsOk(s)
    && s.Freed() <= s.Read()
    && 0 <= s.Outstanding() < s.Size()
  }

  lemma InitInv<Msg>(k: nat, reclaim: bool, items: seq<Msg>)
    requires |items| == Pow2(k)
    ensures Inv(Init(k, reclaim, items))
  {
  }

  /** Two counters less than a ring apart have equal heads only if they are equal. */
  lemma HeadsDiffer(i: nat, j: nat, m: nat)
    requires m > 0 && i <= j <= i + m
    ensures Slot(i, m) == Slot(j, m) <==> i == j || j == i + m
  {
    if i < j < i + m {
      SlotsApart(i, j, m);
    }
  }

  /** Storing the next message leaves the slots of the others alone. */
  lemma StoreKeepsSlot<Msg>(s: State<Msg>, j: nat)
    requires Inv(s) && Enabled(s, StoreItem) && s.Done() <= j < |s.written|
    ensures Do(s, StoreItem).items[Slot(j + 1, s.Size())] == s.written[j]
  {
    hide Slot, Pow2;
    SlotsApart(j + 1, |s.written| + 1, s.Size());
    assert s.items[Slot(j + 1, s.Size())] == s.written[j];
  }

  lemma LoadWriteInv<Msg>(s: State<Msg>, data: Msg)
    requires Inv(s) && s.writer.Idle?
    ensures Inv(Do(s, LoadWrite(data)))
  {
    hide Slot, Pow2, NextPos;
    NextPosCounts(s.k, |s.written|);
  }

  lemma LoadLimitInv<Msg>(s: State<Msg>)
    requires Inv(s) && s.writer.Loaded?
    ensures Inv(Do(s, LoadLimit))
  {
    hide Slot, Pow2, NextPos;
    HeadsDiffer(s.Done(), |s.written| + 1, s.Size());
  }

  lemma StoreItemInv<Msg>(s: State<Msg>)
    requires Inv(s) && Enabled(s, StoreItem)
    ensures Inv(Do(s, StoreItem))
  {
    hide Slot, Pow2, NextPos;
    var s' := Do(s, StoreItem);
    forall j | s.Done() <= j < |s.written| ensures s'.items[Slot(j + 1, s.Size())] == s'.written[j] {
      StoreKeepsSlot(s, j);
    }
  }

  lemma StoreWriteInv<Msg>(s: State<Msg>)
    requires Inv(s) && Enabled(s, StoreWrite)
    ensures Inv(Do(s, StoreWrite))
  {
    hide Slot, Pow2, NextPos;
  }

  lemma PerformerInv<Msg>(s: State<Msg>, step: Step<Msg>)
    requires step.TestData? || step.PerformItem? || step.StoreRead?
    requires Inv(s) && Enabled(s, step)
    ensures Inv(Do(s, step))
  {
    hide Slot, Pow2, NextPos;
    NextPosCounts(s.k, s.Read());
    HeadsDiffer(s.Read(), |s.written|, s.Size());
    if step.PerformItem? {
      assert s.items[Slot(s.Read() + 1, s.Size())] == s.written[s.Read()];
    }
  }

  lemma FreerInv<Msg>(s: State<Msg>, step: Step<Msg>)
    requires step.TestFree? || step.FreeItem? || step.StoreFree?
    requires Inv(s) && Enabled(s, step)
    ensures Inv(Do(s, step))
  {
    hide Slot, Pow2, NextPos;
    NextPosCounts(s.k, s.Freed());
    HeadsDiffer(s.Freed(), s.Read(), s.Size());
    if step.FreeItem? {
      assert s.items[Slot(s.Freed() + 1, s.Size())] == s.written[s.Freed()];
    }
  }

  lemma StepInv<Msg>(s: State<Msg>, step: Step<Msg>)
    requires Inv(s) && Enabled(s, step)
    ensures Inv(Do(s, step))
  {
    hide Inv, Do;
    match step {
      case LoadWrite(data) => LoadWriteInv(s, data);
      case LoadLimit => LoadLimitInv(s);
      case StoreItem => StoreItemInv(s);
      case StoreWrite => StoreWriteInv(s);
      case TestData => PerformerInv(s, step);
      case PerformItem => PerformerInv(s, step);
      case StoreRead => PerformerInv(s, step);
      case TestFree => FreerInv(s, step);
      case FreeItem => FreerInv(s, step);
      case StoreFree => FreerInv(s, step);
    }
  }

  /** No thread ever reaches outside the ring. */
  lemma SlotsInRange<Msg>(s: State<Msg>)
    requires Inv(s)
    ensures NextPos(s.k, s.readHead) < |s.items| && (s.reclaim ==> NextPos(s.k, s.freeHead) < |s.items|)
    ensures !s.writer.Idle? ==> s.writer.next < |s.items|
  {
    NextPosCounts(s.k, s.Read());
    NextPosCounts(s.k, s.Freed());
  }

  // ----- all interleavings

  ghost predicate IsRun<Msg(!new)>(run: seq<State<Msg>>, steps: seq<Step<Msg>>) {
    && |run| == |steps| + 1
    && (forall i :: 0 <= i < |steps| ==> Enabled(run[i], steps[i]) && run[i + 1] == Do(run[i], steps[i]))
    && |run[0].items| == Pow2(run[0].k) && run[0] == Init(run[0].k, run[0].reclaim, run[0].items)
  }

  lemma {:induction false} RunInv<Msg(!new)>(run: seq<State<Msg>>, steps: seq<Step<Msg>>, i: nat)
    requires IsRun(run, steps) && i < |run|
    ensures Inv(run[i]) && run[i].k == run[0].k && run[i].reclaim == run[0].reclaim
    decreases i
  {
    hide Inv, Pow2;
    if i == 0 {
      InitInv(run[0].k, run[0].reclaim, run[0].items);
    } else {
      RunInv(run, steps, i - 1);
      assert run[i] == Do(run[i - 1], steps[i - 1]);
      StepInv(run[i - 1], steps[i - 1]);
    }
  }

  /** The histories only grow. */
  lemma {:induction false} HistoriesGrow<Msg(!new)>(run: seq<State<Msg>>, steps: seq<Step<Msg>>, i: nat, j: nat)
    requires IsRun(run, steps) && i <= j < |run|
    ensures run[i].written <= run[j].written && run[i].performed <= run[j].performed && run[i].freed <= run[j].freed
    decreases j
  {
    if i < j {
      HistoriesGrow(run, steps, i, j - 1);
      hide Pow2;
      assert run[j] == Do(run[j - 1], steps[j - 1]);
    }
  }

  /**
   In every state of every interleaving the messages performed are the first
   ones written, in that order and each once; those freed are the first ones
   performed; and at most N - 1 messages are outstanding.
   */
  lemma FirstInFirstOut<Msg(!new)>(run: seq<State<Msg>>, steps: seq<Step<Msg>>, i: nat)
    requires IsRun(run, steps) && i < |run|
    ensures run[i].performed <= run[i].written && run[i].freed <= run[i].performed
    ensures run[i].Outstanding() <= run[i].Size() - 1
    ensures !run[i].reclaim ==> |run[i].written| - |run[i].performed| <= run[i].Size() - 1
    ensures run[i].reclaim ==> |run[i].written| - |run[i].freed| <= run[i].Size() - 1
  {
    RunInv(run, steps, i);
  }

  /** The slot of a message is not touched before the message is given up. */
  lemma SlotKept<Msg(!new)>(run: seq<State<Msg>>, steps: seq<Step<Msg>>, i: nat, n: nat)
    requires IsRun(run, steps) && i < |steps|
    requires run[i].Done() <= n < |run[i].written|
    ensures |run[i + 1].items| == |run[i].items| == run[i].Size()
    ensures
      var slot := Slot(n + 1, run[i].Size());
      run[i + 1].items[slot] == run[i].items[slot] == run[i].written[n]
  {
    RunInv(run, steps, i);
    RunInv(run, steps, i + 1);
    var s := run[i];
    assert run[i + 1] == Do(s, steps[i]);
    assert s.items[Slot(n + 1, s.Size())] == s.written[n];
    if steps[i].StoreItem? {
      StoreKeepsSlot(s, n);
    }
    hide Slot, Pow2;
  }

  /** A write is turned away exactly when N - 1 messages are outstanding. */
  lemma FullExactly<Msg(!new)>(run: seq<State<Msg>>, steps: seq<Step<Msg>>, i: nat)
    requires IsRun(run, steps) && i < |steps| && steps[i].LoadLimit?
    ensures run[i + 1].writer.Idle? <==> run[i].Outstanding() == run[i].Size() - 1
  {
    RunInv(run, steps, i);
    assert run[i + 1] == Do(run[i], steps[i]);
    HeadsDiffer(run[i].Done(), |run[i].written| + 1, run[i].Size());
    hide Slot, Pow2, NextPos;
  }

  /** The performer stops exactly when every message has been performed, the freer when every performed one is freed. */
  lemma EmptyExactly<Msg(!new)>(run: seq<State<Msg>>, steps: seq<Step<Msg>>, i: nat)
    requires IsRun(run, steps) && i < |steps| && (steps[i].TestData? || steps[i].TestFree?)
    ensures steps[i].TestData? ==> (run[i + 1].performer.Waiting? <==> run[i].performed == run[i].written)
    ensures steps[i].TestFree? ==> (run[i + 1].freer.Resting? <==> |run[i].freed| == run[i].Read())
  {
    RunInv(run, steps, i);
    var s := run[i];
    assert run[i + 1] == Do(s, steps[i]);
    if steps[i].TestData? {
      HeadsDiffer(s.Read(), |s.written|, s.Size());
    } else {
      HeadsDiffer(s.Freed(), s.Read(), s.Size());
    }
    hide Slot, Pow2, NextPos;
  }

  // ----- the operations run to completion

  class Fifo<Msg(!new)> {
    const k: nat
    var items: seq<Msg>
    var writeHead: nat
    var readHead: nat
    var freeHead: nat
    ghost var state: State<Msg>

    ghost predicate Valid()
      reads this
    {
      && Inv(state) && state.reclaim && state.k == k
      && items == state.items && writeHead == state.writeHead && readHead == state.readHead
        && freeHead == state.freeHead
    }

    constructor (bits: nat, slots: seq<Msg>)
      requires |slots| == Pow2(bits)
      ensures Quiet() && state == Init(bits, true, slots)
    {
      k, items := bits, slots;
      writeHead, readHead, freeHead := 0, 0, 0;
      state := Init(bits, true, slots);
      new;
      InitInv(bits, true, slots);
    }

    ghost predicate Quiet()
      reads this
    {
      Valid() && state.writer.Idle? && state.performer.Waiting? && state.freer.Resting?
    }

    ghost method Advance(step: Step<Msg>)
      requires Inv(state) && Enabled(state, step)
      modifies this`state
      ensures state == Do(old(state), step) && Inv(state)
    {
      StepInv(state, step);
      state := Do(state, step);
    }

    method Write(data: Msg) returns (ok: bool)
      requires Quiet()
      modifies this
      ensures Quiet() && ok == (|old(state.written)| - |old(state.freed)| < Pow2(k) - 1)
      ensures state.written == if ok then old(state.written) + [data] else old(state.written)
      ensures state.performed == old(state.performed) && state.freed == old(state.freed)
    {
      hide Slot, Pow2, NextPos, SlotsHold;
      HeadsDiffer(state.Done(), |state.written| + 1, state.Size());
      var next := NextPos(k, writeHead);
      Advance(LoadWrite(data));
      Advance(LoadLimit);
      if next == freeHead {
        return false;
      }
      SlotsInRange(state);
      items := items[next := data];
      Advance(StoreItem);
      SlotsInRange(state);
      writeHead := next;
      Advance(StoreWrite);
      return true;
    }

    /** Performs every message written so far. */
    method Perform()
      requires Quiet()
      modifies this
      ensures Quiet() && state.performed == state.written
      ensures state.written == old(state.written) && state.freed == old(state.freed)
    {
      hide Slot, Pow2, NextPos, SlotsHold;
      HeadsDiffer(state.Read(), |state.written|, state.Size());
      while readHead != writeHead
        invariant Quiet() && state.written == old(state.written) && state.freed == old(state.freed)
        invariant readHead == writeHead ==> state.performed == state.written
        decreases |state.written| - |state.performed|
      {
        Advance(TestData);
        SlotsInRange(state);
        var next := NextPos(k, readHead);
        Advance(PerformItem);
        readHead := next;
        Advance(StoreRead);
        HeadsDiffer(state.Read(), |state.written|, state.Size());
      }
    }

    /** Frees every message performed so far. */
    method Free()
      requires Quiet()
      modifies this
      ensures Quiet() && state.freed == state.performed
      ensures state.written == old(state.written) && state.performed == old(state.performed)
    {
      hide Slot, Pow2, NextPos, SlotsHold;
      HeadsDiffer(state.Freed(), state.Read(), state.Size());
      while freeHead != readHead
        invariant Quiet() && state.written == old(state.written) && state.performed == old(state.performed)
        invariant freeHead == readHead ==> state.freed == state.performed
        decreases |state.performed| - |state.freed|
      {
        Advance(TestFree);
        SlotsInRange(state);
        var next := NextPos(k, freeHead);
        Advance(FreeItem);
        freeHead := next;
        Advance(StoreFree);
        HeadsDiffer(state.Freed(), state.Read(), state.Size());
      }
    }
  }
}
