/** A run of the AXI controller that wears block 0 out and so makes page 1 share it. */
module AxiRemapRun {
  import opened AxiController

  /** The host writes address 0 all the time, and neither it nor the flash ever stalls. */
  const WRITE_ZERO: Pins :=
    Pins(true, true, 0, 0, true, 0, true, true, false, 0, 0, true, 0, true)

  predicate Writing(s: State) {
    WriteOnly(s) || s.FtlTranslate? || s.Respond?
  }

  predicate Programmed(s: State) {
    s.ProgWait? || s.WlRemap? || s.Respond?
  }

  /** The first n entries of the tables as start-up leaves them, but for block 0's count. */
  ghost predicate Untouched(t: Tables, n: nat) {
    && Sized(t) && n <= BLOCKS
    && (forall k :: 0 <= k < n && k < MAP_SIZE ==> t.l2p[k] == k)
    && (forall k :: 0 < k < n ==> t.pe[k] == 0)
  }

  /** Where such a run can be before the first remap is done. */
  ghost predicate Wearing(r: Regs) {
    && Inv(r)
    && (if r.boot.done then Untouched(r.tables, BLOCKS) && r.tables.pe[0] <= TLC_MAX_PE + 2
        else Untouched(r.tables, r.boot.pePtr) && (r.boot.pePtr > 0 ==> r.tables.pe[0] == 0))
    && (Writing(r.state) ==> r.op.write && r.op.base == 0)
    && !ReadOnly(r.state)
    && (r.state.ProgWait? || r.state.WlRemap? ==> (r.wear.needed <==> r.tables.pe[0] == TLC_MAX_PE + 2))
    && (r.boot.done && !r.state.ProgWait? && !r.state.WlRemap? ==> r.tables.pe[0] <= TLC_MAX_PE + 1)
  }

  predicate AtRemap(r: Regs) {
    r.state.WlRemap? && r.wl.ptr == BLOCKS - 1
  }

  lemma StillWearing(c: Codec, r: Regs)
    requires Wearing(r) && !AtRemap(r)
    ensures Wearing(Step(c, r, WRITE_ZERO))
  {
    StepInv(c, r, WRITE_ZERO);
    assert Translated(r) && Handshakes(r) && Booted(r);
    hide Inv;
    hide Filled;
    hide LeastBelow;
    match r.state {
      case Idle => WearingIdle(c, r);
      case PageProgram => WearingProgram(c, r);
      case ProgWait => WearingWait(c, r);
      case EraseWait => WearingWait(c, r);
      case WlRemap =>
      case Fetch =>
      case Coalesce =>
      case Respond =>
      case _ =>
    }
  }

  lemma WearingIdle(c: Codec, r: Regs)
    requires Wearing(r) && r.state.Idle?
    ensures Inv(Step(c, r, WRITE_ZERO)) ==> Wearing(Step(c, r, WRITE_ZERO))
  {
    hide LeastBelow;
  }

  lemma WearingProgram(c: Codec, r: Regs)
    requires Wearing(r) && r.state.PageProgram?
    ensures Inv(Step(c, r, WRITE_ZERO)) ==> Wearing(Step(c, r, WRITE_ZERO))
  {
    hide LeastBelow;
    hide Filled;
  }

  lemma WearingWait(c: Codec, r: Regs)
    requires Wearing(r) && (r.state.ProgWait? || r.state.EraseWait?)
    ensures Inv(Step(c, r, WRITE_ZERO)) ==> Wearing(Step(c, r, WRITE_ZERO))
  {
    hide LeastBelow;
    hide Filled;
  }

  // ---------------------------------------------------------------- the run gets there

  function BootLeft(r: Regs): int {
    if r.boot.done then 0 else BLOCKS - r.boot.pePtr
  }

  function EraseLeft(r: Regs): int {
    2 * (GC_THRESHOLD - r.freeBlocks) + One(r.state.EraseWait?)
  }

  function ProgramLeft(r: Regs): int
    requires |r.tables.pe| == BLOCKS
  {
    if r.boot.done then 2 * (TLC_MAX_PE + 2 - r.tables.pe[0]) + One(Programmed(r.state)) else 2 * TLC_MAX_PE + 5
  }

  function ClocksLeft(r: Regs): nat {
    if r.state.Idle? then ERASE_CLOCKS + 2 * BLOCKS else Left(r)
  }

  /** The four counters as one lexicographic measure. */
  ghost predicate Closer(after: Regs, before: Regs)
    requires |after.tables.pe| == |before.tables.pe| == BLOCKS
  {
    || BootLeft(after) < BootLeft(before)
    || (BootLeft(after) == BootLeft(before) && EraseLeft(after) < EraseLeft(before))
    || (BootLeft(after) == BootLeft(before) && EraseLeft(after) == EraseLeft(before)
        && ProgramLeft(after) < ProgramLeft(before))
    || (BootLeft(after) == BootLeft(before) && EraseLeft(after) == EraseLeft(before)
        && ProgramLeft(after) == ProgramLeft(before) && ClocksLeft(after) < ClocksLeft(before))
  }

  lemma GetsCloser(c: Codec, r: Regs)
    requires Wearing(r) && !AtRemap(r)
    ensures |Step(c, r, WRITE_ZERO).tables.pe| == |r.tables.pe| == BLOCKS
    ensures Closer(Step(c, r, WRITE_ZERO), r)
  {
    StillWearing(c, r);
    if !r.state.Idle? {
      StepProgress(c, r, WRITE_ZERO);
    }
    hide Filled;
    hide LeastBelow;
    hide Untouched;
    hide Left;
    match r.state {
      case Idle => IdleCloser(c, r);
      case BlockErase =>
      case EraseWait =>
      case PageProgram =>
      case Respond =>
      case ProgWait =>
      case WlRemap =>
      case _ =>
    }
  }

  lemma IdleCloser(c: Codec, r: Regs)
    requires Wearing(r) && r.state.Idle? && |Step(c, r, WRITE_ZERO).tables.pe| == BLOCKS
    ensures Closer(Step(c, r, WRITE_ZERO), r)
  {
    hide LeastBelow;
  }

  lemma RunOneMore(c: Codec, t: Tables, inputs: seq<Pins>)
    requires Sized(t)
    ensures Formed(Run(c, t, inputs))
    ensures Run(c, t, inputs + [WRITE_ZERO]) == Step(c, Run(c, t, inputs), WRITE_ZERO)
  {
    assert (inputs + [WRITE_ZERO])[..|inputs|] == inputs;
    hide Step;
  }

  lemma Reach(c: Codec, t: Tables, inputs: seq<Pins>) returns (more: seq<Pins>)
    requires Sized(t) && Wearing(Run(c, t, inputs))
    requires |Run(c, t, inputs).tables.pe| == BLOCKS && forall k :: 0 <= k < |inputs| ==> inputs[k] == WRITE_ZERO
    ensures Wearing(Run(c, t, more)) && AtRemap(Run(c, t, more))
    ensures forall k :: 0 <= k < |more| ==> more[k] == WRITE_ZERO
    decreases BootLeft(Run(c, t, inputs)), EraseLeft(Run(c, t, inputs)),
      ProgramLeft(Run(c, t, inputs)), ClocksLeft(Run(c, t, inputs))
  {
    var r := Run(c, t, inputs);
    if AtRemap(r) {
      return inputs;
    }
    RunOneMore(c, t, inputs);
    StillWearing(c, r);
    GetsCloser(c, r);
    LeftNatural(r);
    hide Run;
    hide Step;
    hide Wearing;
    hide BootLeft;
    hide EraseLeft;
    hide ProgramLeft;
    hide ClocksLeft;
    more := Reach(c, t, inputs + [WRITE_ZERO]);
  }

  lemma StartWears(c: Codec, t: Tables)
    requires Sized(t)
    ensures Wearing(Run(c, t, [])) && |Run(c, t, []).tables.pe| == BLOCKS
  {
    assert Run(c, t, []) == Reset(t);
    assert Inv(Run(c, t, []));
  }

  lemma LeftNatural(r: Regs)
    requires Wearing(r)
    ensures |r.tables.pe| == BLOCKS
    ensures BootLeft(r) >= 0 && EraseLeft(r) >= 0 && ProgramLeft(r) >= 0
  {
    hide LeastBelow;
  }

  lemma LastClock(c: Codec, r: Regs)
    requires Wearing(r) && AtRemap(r)
    ensures var m := Step(c, r, WRITE_ZERO).tables.l2p;
            |m| == MAP_SIZE && m[0] == m[1]
  {
    RemapStep(r);
    assert Translated(r) && Handshakes(r) && Booted(r);
    hide Inv;
    assert r.tables.pe[0] > 0 && r.tables.pe[1] == 0;
    assert r.wl.victim == 1;
  }

  /** From any start-up there is a run of ordinary writes to address 0 after which pages 0 and 1 share a block. */
  lemma ARunThatAliases(c: Codec, t: Tables) returns (inputs: seq<Pins>)
    requires Sized(t)
    ensures var m := Run(c, t, inputs).tables.l2p;
            |m| == MAP_SIZE && m[0] == m[1]
    ensures forall k :: 0 <= k < |inputs| ==> inputs[k] == WRITE_ZERO
  {
    StartWears(c, t);
    var before := Reach(c, t, []);
    inputs := before + [WRITE_ZERO];
    RunOneMore(c, t, before);
    hide Run;
    LastClock(c, Run(c, t, before));
  }
}
