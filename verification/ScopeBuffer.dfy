/**
 The triple buffer of common/scope_buffer.hpp: one writer, one reader, three
 regions and no lock.

 Every load, store and exchange of a shared field is a step of its own, and the
 steps of the two threads interleave in any order.
 */
module ScopeBuffer {

  import opened Words

  // ----- the shared memory layout

  /** Where `allocate` puts three regions, in 32-bit unsigned arithmetic, and how many floats it asks for. */
  datatype Layout = Layout(asset: nat, floats: nat) {
    function Region(r: nat): nat { r * asset }
  }

  function Allocate(channels: nat, size: nat): Layout {
    var asset := channels * size % WORD32;
    Layout(asset, asset * 3 % WORD32)
  }

  /** Three disjoint regions of `n` floats, all inside the allocation. */
  ghost predicate Separate(l: Layout, n: nat) {
    && (forall r :: 0 <= r < 3 ==> l.Region(r) + n <= l.floats)
    && (forall r, q :: 0 <= r < q < 3 ==> l.Region(r) + n <= l.Region(q))
  }

  /** The regions hold `channels * size` floats each exactly when three of them can be counted in 32 bits. */
  lemma RegionsSeparate(channels: nat, size: nat)
    ensures Separate(Allocate(channels, size), channels * size) <==> channels * size * 3 < WORD32
  {
    var n := channels * size;
    var l := Allocate(channels, size);
    if n * 3 < WORD32 {
      assert l == Layout(n, n * 3);
      assert l.Region(0) == 0 && l.Region(1) == n && l.Region(2) == 2 * n;
    }
    if Separate(l, n) {
      assert l.Region(0) + n <= l.Region(1) && l.Region(2) + n <= l.floats;
      assert l.asset == n;
      assert l.Region(2) == 2 * n;
    }
  }

  // ----- states

  /** What the writer publishes with one push. */
  datatype Packet = Packet(frames: nat, cells: seq<int>)

  /** Filling the region, then between the steps of `push`. */
  datatype Writer = Filling | Framed | Flagged

  /** Outside `pull`, after the load of `_stage`, and after each step taken when the flag was set. */
  datatype Reader = Reading | Loaded(stage: nat) | Taking | Cleared

  /**
   The fields of the buffer, the two program counters, and the history: the
   packets pushed so far, the version each region was last pushed as, and the
   versions the reader has taken.
   */
  datatype State = State(
    stage: nat, inn: nat, out: nat,
    frames: seq<nat>, changed: seq<bool>, cells: seq<seq<int>>,
    writer: Writer, reader: Reader,
    pushed: seq<Packet>, version: seq<nat>, taken: seq<nat>)

  function Init(cells: seq<seq<int>>): State {
    State(0, 1, 2, [0, 0, 0], [false, false, false], cells, Filling, Reading, [], [0, 0, 0], [])
  }

  datatype Step =
    | WriteCell(i: nat, x: int)   // the writer fills its region
    | SetFrames(n: nat)           // push: _state[_in].frames = frames
    | SetChanged                  // push: _state[_in].changed.store(true)
    | PushExchange                // push: _in = _stage.exchange(_in)
    | LoadStage                   // pull: stage = _stage.load()
    | LoadChanged                 // pull: changed = _state[stage].changed.load()
    | ClearChanged                // pull: _state[_out].changed.store(false)
    | PullExchange                // pull: _out = _stage.exchange(_out)

  ghost predicate Shaped(s: State) {
    && |s.frames| == 3 && |s.changed| == 3 && |s.cells| == 3 && |s.version| == 3
    && s.stage < 3 && s.inn < 3 && s.out < 3
    && (s.reader.Loaded? ==> s.reader.stage < 3)
  }

  ghost predicate Enabled(s: State, step: Step)
    requires Shaped(s)
  {
    match step
    case WriteCell(i, x) => s.writer.Filling? && i < |s.cells[s.inn]|
    case SetFrames(n) => s.writer.Filling?
    case SetChanged => s.writer.Framed?
    case PushExchange => s.writer.Flagged?
    case LoadStage => s.reader.Reading?
    case LoadChanged => s.reader.Loaded?
    case ClearChanged => s.reader.Taking?
    case PullExchange => s.reader.Cleared?
  }

  ghost function Do(s: State, step: Step): (s': State)
    requires Shaped(s) && Enabled(s, step)
    ensures Shaped(s')
  {
    match step
    case WriteCell(i, x) => s.(cells := s.cells[s.inn := s.cells[s.inn][i := x]])
    case SetFrames(n) => s.(frames := s.frames[s.inn := n], writer := Framed)
    case SetChanged => s.(changed := s.changed[s.inn := true], writer := Flagged)
    case PushExchange =>
      s.(stage := s.inn, inn := s.stage, writer := Filling,
         pushed := s.pushed + [Packet(s.frames[s.inn], s.cells[s.inn])],
         version := s.version[s.inn := |s.pushed| + 1])
    case LoadStage => s.(reader := Loaded(s.stage))
    case LoadChanged => s.(reader := if s.changed[s.reader.stage] then Taking else Reading)
    case ClearChanged => s.(changed := s.changed[s.out := false], reader := Cleared)
    case PullExchange =>
      s.(stage := s.out, out := s.stage, reader := Reading, taken := s.taken + [s.version[s.stage]])
  }

  // ----- the invariant

  /** The region holds the packet it was last pushed as, or no frames at all. */
  ghost predicate Holds(s: State, r: nat)
    requires Shaped(s) && r < 3
  {
    && s.version[r] <= |s.pushed|
    && (if s.version[r] > 0 then s.pushed[s.version[r] - 1] == Packet(s.frames[r], s.cells[r]) else s.frames[r] == 0)
  }

  /** The three indexes are a permutation of 0, 1, 2. */
  ghost predicate Permuted(s: State) {
    s.stage != s.inn && s.stage != s.out && s.inn != s.out
  }

  ghost predicate Increasing(taken: seq<nat>) {
    forall i, j :: 0 <= i < j < |taken| ==> taken[i] < taken[j]
  }

  ghost predicate Inv(s: State) {
    && Shaped(s) && Permuted(s)
    && Holds(s, s.stage) && Holds(s, s.out)
    // the staged region is unread exactly when it is the latest push
    && (if s.changed[s.stage] then s.version[s.stage] == |s.pushed| && s.version[s.out] < |s.pushed|
        else s.version[s.out] == |s.pushed|)
    && (s.writer.Flagged? ==> s.changed[s.inn])
    // a stage loaded by the reader is current, or a push has overtaken it
    && (s.reader.Loaded? ==> s.reader.stage == s.stage || (s.reader.stage == s.inn && s.changed[s.stage]))
    && (s.reader.Taking? || s.reader.Cleared? ==> s.changed[s.stage])
    && (s.reader.Cleared? ==> !s.changed[s.out])
    && Increasing(s.taken)
    && (if s.taken == [] then s.version[s.out] == 0 else s.taken[|s.taken| - 1] == s.version[s.out])
  }

  lemma InitInv(cells: seq<seq<int>>)
    requires |cells| == 3
    ensures Inv(Init(cells))
  {
  }

  lemma WriterInv(s: State, step: Step)
    requires step.WriteCell? || step.SetFrames? || step.SetChanged?
    requires Inv(s) && Enabled(s, step)
    ensures Inv(Do(s, step))
  {
    hide Increasing;
  }

  lemma PushInv(s: State)
    requires Inv(s) && Enabled(s, PushExchange)
    ensures Inv(Do(s, PushExchange))
  {
    hide Increasing;
  }

  lemma ReaderInv(s: State, step: Step)
    requires step.LoadStage? || step.LoadChanged? || step.ClearChanged?
    requires Inv(s) && Enabled(s, step)
    ensures Inv(Do(s, step))
  {
    hide Increasing;
  }

  lemma PullInv(s: State)
    requires Inv(s) && Enabled(s, PullExchange)
    ensures Inv(Do(s, PullExchange))
  {
    assert Increasing(s.taken + [s.version[s.stage]]);
  }

  lemma StepInv(s: State, step: Step)
    requires Inv(s) && Enabled(s, step)
    ensures Inv(Do(s, step))
  {
    hide Inv, Do;
    match step {
      case WriteCell(_, _) => WriterInv(s, step);
      case SetFrames(_) => WriterInv(s, step);
      case SetChanged => WriterInv(s, step);
      case PushExchange => PushInv(s);
      case LoadStage => ReaderInv(s, step);
      case LoadChanged => ReaderInv(s, step);
      case ClearChanged => ReaderInv(s, step);
      case PullExchange => PullInv(s);
    }
  }

  // ----- all interleavings

  /** The states passed through by an interleaving of steps. */
  ghost predicate IsRun(run: seq<State>, steps: seq<Step>) {
    && |run| == |steps| + 1
    && (forall i :: 0 <= i < |run| ==> Shaped(run[i]))
    && (forall i :: 0 <= i < |steps| ==> Enabled(run[i], steps[i]) && run[i + 1] == Do(run[i], steps[i]))
    && |run[0].cells| == 3 && run[0] == Init(run[0].cells)
  }

  lemma {:induction false} RunInv(run: seq<State>, steps: seq<Step>, i: nat)
    requires IsRun(run, steps) && i < |run|
    ensures Inv(run[i])
  {
    if i == 0 {
      InitInv(run[0].cells);
    } else {
      RunInv(run, steps, i - 1);
      StepInv(run[i - 1], steps[i - 1]);
      assert run[i] == Do(run[i - 1], steps[i - 1]);
    }
  }

  /** The writer never writes where the reader reads, and what the reader sees is a whole packet. */
  lemma ReaderUndisturbed(run: seq<State>, steps: seq<Step>, i: nat)
    requires IsRun(run, steps) && i < |steps| && !steps[i].PullExchange?
    ensures var s, s' := run[i], run[i + 1];
      && s.inn != s.out && s'.out == s.out
      && s'.cells[s.out] == s.cells[s.out] && s'.frames[s.out] == s.frames[s.out]
      && Holds(s, s.out) && (s.taken != [] ==> s.version[s.out] > 0)
  {
    RunInv(run, steps, i);
    TakenArePushed(run, steps, i);
    var taken := run[i].taken;
    assert taken != [] ==> taken[|taken| - 1] in taken;
    assert run[i + 1] == Do(run[i], steps[i]);
  }

  /** An exchange by the reader always takes the latest packet, and one it has not taken before. */
  lemma PullTakesLatest(run: seq<State>, steps: seq<Step>, i: nat)
    requires IsRun(run, steps) && i < |steps| && steps[i].PullExchange?
    ensures var s, s' := run[i], run[i + 1];
      && s.pushed != [] && s'.taken == s.taken + [|s.pushed|]
      && (s.taken != [] ==> s.taken[|s.taken| - 1] < |s.pushed|)
      && Packet(s'.frames[s'.out], s'.cells[s'.out]) == s.pushed[|s.pushed| - 1]
  {
    RunInv(run, steps, i);
    assert run[i + 1] == Do(run[i], steps[i]);
  }

  /** The writer marks region `r` as changed in one of the steps from `i` up to `j`. */
  ghost predicate Marks(run: seq<State>, steps: seq<Step>, i: nat, j: nat, r: nat)
    requires |run| == |steps| + 1 && j <= |steps|
  {
    exists k :: i <= k < j && steps[k].SetChanged? && run[k].inn == r
  }

  predicate OfWriter(step: Step) {
    step.WriteCell? || step.SetFrames? || step.SetChanged? || step.PushExchange?
  }

  /** Between two loads of the reader, region `r` is flagged from the start or marked since. */
  ghost predicate Flagging(s: State, s': State, marked: bool)
    requires Shaped(s) && Shaped(s')
  {
    && s'.reader == Loaded(s.stage) && s'.out == s.out && s'.version[s.out] == s.version[s.out]
    && (s'.changed[s.stage] <==> s.version[s.out] < |s.pushed| || marked)
  }

  lemma FlaggingStarts(s: State)
    requires Inv(s) && s.reader.Reading?
    ensures Flagging(s, Do(s, LoadStage), false)
  {
    hide Increasing;
  }

  lemma FlaggingGoesOn(s: State, s': State, step: Step, marked: bool)
    requires Inv(s') && Shaped(s) && Enabled(s', step) && OfWriter(step) && Flagging(s, s', marked)
    ensures Flagging(s, Do(s', step), marked || (step.SetChanged? && s'.inn == s.stage))
  {
    hide Increasing, Holds;
  }

  /** While the reader rests between its two loads, the flag it will look at is only ever set. */
  lemma {:induction false} FlagBetweenLoads(run: seq<State>, steps: seq<Step>, i: nat, j: nat)
    requires IsRun(run, steps) && i < j <= |steps| && steps[i].LoadStage?
    requires forall k :: i < k < j ==> OfWriter(steps[k])
    ensures Flagging(run[i], run[j], Marks(run, steps, i, j, run[i].stage))
    decreases j
  {
    hide Flagging, Inv, Do;
    RunInv(run, steps, j - 1);
    var r := run[i].stage;
    if i < j - 1 {
      FlagBetweenLoads(run, steps, i, j - 1);
      FlaggingGoesOn(run[i], run[j - 1], steps[j - 1], Marks(run, steps, i, j - 1, r));
      assert Marks(run, steps, i, j, r) <==>
        Marks(run, steps, i, j - 1, r) || (steps[j - 1].SetChanged? && run[j - 1].inn == r);
    } else {
      FlaggingStarts(run[i]);
    }
  }

  /**
   A pull goes on to take a packet exactly when the reader lacked the latest packet at its
   first load, or the writer has since marked the region the reader looked at: no push
   between the two loads makes it turn back.
   */
  lemma TakesExactly(run: seq<State>, steps: seq<Step>, i: nat, j: nat)
    requires IsRun(run, steps) && i < j < |steps| && steps[i].LoadStage? && steps[j].LoadChanged?
    requires forall k :: i < k < j ==> OfWriter(steps[k])
    ensures run[j + 1].reader ==
      if run[i].version[run[i].out] < |run[i].pushed| || Marks(run, steps, i, j, run[i].stage) then Taking else Reading
  {
    FlagBetweenLoads(run, steps, i, j);
    assert run[j + 1] == Do(run[j], steps[j]);
  }

  /** The reader holds a packet at least as recent as version `n`, or is bound to take one. */
  ghost predicate CatchesUp(s: State, n: nat)
    requires Shaped(s)
  {
    && n <= |s.pushed|
    && match s.reader
       case Reading => n <= s.version[s.out]
       case Loaded(r) => n <= s.version[s.out] || s.changed[r]
       case Taking => true
       case Cleared => true
  }

  lemma CatchesUpStep(s: State, step: Step, n: nat)
    requires Inv(s) && Enabled(s, step) && CatchesUp(s, n) && !s.reader.Reading?
    ensures CatchesUp(Do(s, step), n)
  {
    hide Increasing;
  }

  /**
   Whatever the writer does in the meantime, a pull ends with a packet at least as recent as
   the latest one pushed when it began, and with all of that packet.
   */
  lemma PullCatchesUp(run: seq<State>, steps: seq<Step>, i: nat, j: nat)
    requires IsRun(run, steps) && i < j <= |steps| && steps[i].LoadStage? && run[j].reader.Reading?
    requires forall k :: i < k < j ==> !run[k].reader.Reading?
    ensures var s, n := run[j], |run[i].pushed|;
      && n <= s.version[s.out] <= |s.pushed|
      && (n > 0 ==> Packet(s.frames[s.out], s.cells[s.out]) == s.pushed[s.version[s.out] - 1])
  {
    RunInv(run, steps, i);
    RunInv(run, steps, j);
    assert run[i + 1] == Do(run[i], steps[i]);
    assert CatchesUp(run[i + 1], |run[i].pushed|);
    CatchingUp(run, steps, i + 1, j, |run[i].pushed|);
  }

  lemma {:induction false} CatchingUp(run: seq<State>, steps: seq<Step>, i: nat, j: nat, n: nat)
    requires IsRun(run, steps) && i <= j <= |steps| && CatchesUp(run[i], n)
    requires forall k :: i <= k < j ==> !run[k].reader.Reading?
    ensures CatchesUp(run[j], n)
    decreases j
  {
    hide CatchesUp, Inv, Do, Enabled;
    if i < j {
      CatchingUp(run, steps, i, j - 1, n);
      RunInv(run, steps, j - 1);
      assert run[j] == Do(run[j - 1], steps[j - 1]);
      CatchesUpStep(run[j - 1], steps[j - 1], n);
    }
  }

  /** When the flag of the staged region is found clear, the reader already has the latest packet. */
  lemma ClearMeansLatest(run: seq<State>, steps: seq<Step>, i: nat)
    requires IsRun(run, steps) && i < |steps| && steps[i].LoadChanged?
    requires run[i].reader.stage == run[i].stage && run[i + 1].reader.Reading?
    ensures var s := run[i]; s.version[s.out] == |s.pushed|
  {
    RunInv(run, steps, i);
    assert run[i + 1] == Do(run[i], steps[i]);
  }

  /** The versions the reader takes over a whole run strictly increase. */
  lemma VersionsIncrease(run: seq<State>, steps: seq<Step>)
    requires IsRun(run, steps)
    ensures Increasing(run[|steps|].taken)
    ensures forall v :: v in run[|steps|].taken ==> 0 < v <= |run[|steps|].pushed|
  {
    TakenArePushed(run, steps, |steps|);
    RunInv(run, steps, |steps|);
  }

  lemma {:induction false} TakenArePushed(run: seq<State>, steps: seq<Step>, i: nat)
    requires IsRun(run, steps) && i < |run|
    ensures forall v :: v in run[i].taken ==> 0 < v <= |run[i].pushed|
  {
    if i > 0 {
      TakenArePushed(run, steps, i - 1);
      RunInv(run, steps, i - 1);
      assert run[i] == Do(run[i - 1], steps[i - 1]);
    }
  }

  // ----- the two operations

  /** The buffer with both operations run to completion. */
  class Buffer {
    ghost var state: State
    var stage: nat
    var inn: nat
    var out: nat
    var frames: seq<nat>
    var changed: seq<bool>
    var cells: seq<seq<int>>

    ghost predicate Valid()
      reads this
    {
      && Inv(state) && stage == state.stage && inn == state.inn && out == state.out
      && frames == state.frames && changed == state.changed && cells == state.cells
    }

    constructor (regions: seq<seq<int>>)
      requires |regions| == 3
      ensures Valid() && state == Init(regions)
    {
      stage, inn, out := 0, 1, 2;
      frames, changed, cells := [0, 0, 0], [false, false, false], regions;
      state := Init(regions);
      new;
      InitInv(regions);
    }

    method Write(i: nat, x: int)
      requires Valid() && state.writer.Filling? && i < |cells[inn]|
      modifies this
      ensures Valid() && state == Do(old(state), WriteCell(i, x)) && cells[inn] == old(cells[inn])[i := x]
    {
      cells := cells[inn := cells[inn][i := x]];
      Advance(WriteCell(i, x));
    }

    method Push(n: nat)
      requires Valid() && state.writer.Filling?
      modifies this
      ensures Valid() && state.pushed == old(state.pushed) + [Packet(n, old(state.cells[inn]))]
      ensures state.writer.Filling? && state.reader == old(state.reader) && out == old(out)
        && state.taken == old(state.taken)
    {
      frames := frames[inn := n];
      Advance(SetFrames(n));
      changed := changed[inn := true];
      Advance(SetChanged);
      inn, stage := stage, inn;
      Advance(PushExchange);
    }

    /** Without a push in between, `pull` leaves the reader with the latest packet. */
    method Pull() returns (n: nat)
      requires Valid() && state.reader.Reading?
      modifies this
      ensures Valid() && state.pushed == old(state.pushed) && state.version[out] == |state.pushed|
      ensures n == if state.pushed == [] then 0 else state.pushed[|state.pushed| - 1].frames
      ensures state.taken ==
        if old(state.version[out]) < |state.pushed| then old(state.taken) + [|state.pushed|] else old(state.taken)
      ensures state.reader.Reading? && state.writer == old(state.writer) && inn == old(inn)
    {
      hide Increasing;
      var s := stage;
      Advance(LoadStage);
      var flag := changed[s];
      Advance(LoadChanged);
      if flag {
        TakeStaged();
      }
      n := frames[out];
    }

    /** The rest of `pull` once the changed flag was seen. */
    method TakeStaged()
      requires Valid() && state.reader.Taking?
      modifies this
      ensures Valid() && state == Do(Do(old(state), ClearChanged), PullExchange)
    {
      hide Increasing, Holds;
      changed := changed[out := false];
      Advance(ClearChanged);
      out, stage := stage, out;
      Advance(PullExchange);
    }

    /**
     scope_buffer_reader.pull: true whenever the latest packet has frames, taken
     before or not.
     */
    method PullFrames(frames: nat) returns (got: bool, frames': nat)
      requires Valid() && state.reader.Reading?
      modifies this
      ensures Valid() && state.pushed == old(state.pushed) && state.reader.Reading?
      ensures got <==> state.pushed != [] && state.pushed[|state.pushed| - 1].frames != 0
      ensures frames' == if got then state.pushed[|state.pushed| - 1].frames else frames
    {
      var newFrames := Pull();
      frames' := if newFrames != 0 then newFrames else frames;
      got := newFrames != 0;
    }

    ghost method Advance(step: Step)
      requires Inv(state) && Enabled(state, step)
      modifies this`state
      ensures state == Do(old(state), step) && Inv(state)
    {
      StepInv(state, step);
      state := Do(state, step);
    }
  }
}
