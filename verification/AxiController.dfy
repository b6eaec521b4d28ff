/** The AXI flash controller: one clocked state machine with its bus, flash and table registers. */
module AxiController {

  datatype State =
    | Idle | Fetch | Coalesce | FtlTranslate | EccGen | PageProgram | ProgWait | PageRead | ReadWait
    | GcSelect | GcCopy | BlockErase | EraseWait | WlRemap | AfeSense | Respond

  const BLOCKS: nat := 1024
  const MAP_SIZE: nat := 256
  const TLC_MAX_PE: nat := 3000
  const GC_THRESHOLD: nat := 100
  const PROGRAM_CLOCKS: nat := 30000
  const READ_CLOCKS: nat := 2500
  const ERASE_CLOCKS: nat := 300000

  /** The input pins in one clock. */
  datatype Pins = Pins(rstN: bool, awvalid: bool, awaddr: nat, awlen: nat, wvalid: bool, wdata: nat, wlast: bool,
                       bready: bool, arvalid: bool, araddr: nat, arlen: nat, rready: bool, nandIo: nat, nandRb: bool)

  /** The error-correction submodules, as any two functions. */
  datatype Codec = Codec(encode: nat -> nat, decode: nat -> nat)

  datatype Axi = Axi(awready: bool, wready: bool, bvalid: bool, arready: bool, rvalid: bool, rlast: bool, rdata: nat)
  datatype Nand = Nand(cle: bool, weN: bool, ceN: bool, io: nat, ioOe: bool, wait: nat)
  datatype Boot = Boot(done: bool, ptr: nat, pePtr: nat)
  datatype Op = Op(write: bool, base: nat, len: nat, beats: nat, pba: nat, wdata: nat, ecc: nat, rdata: nat)
  datatype Scan = Scan(ptr: nat, victim: nat, least: nat)
  datatype Wear = Wear(needed: bool, hot: nat)
  datatype Tables = Tables(l2p: seq<nat>, pe: seq<nat>, gcValid: seq<nat>)

  datatype Regs = Regs(state: State, axi: Axi, nand: Nand, boot: Boot, op: Op, gc: Scan, wl: Scan, wear: Wear,
                       freeBlocks: nat, tables: Tables)

  ghost predicate Sized(t: Tables) {
    |t.l2p| == MAP_SIZE && |t.pe| == BLOCKS && |t.gcValid| == BLOCKS
  }

  /** The registers in range of their widths, the tables of their sizes. */
  ghost predicate Formed(r: Regs) {
    && Sized(r.tables) && r.boot.ptr < MAP_SIZE && r.boot.pePtr < BLOCKS
    && r.gc.ptr < BLOCKS && r.gc.victim < BLOCKS && r.wl.ptr < BLOCKS && r.wl.victim < BLOCKS
  }

  /** Reset leaves the tables alone; the free-block count is ten bits wide, so 1024 becomes 0. */
  function Reset(t: Tables): Regs {
    Regs(Idle, Axi(false, false, false, false, false, false, 0), Nand(false, true, true, 0, false, 0),
         Boot(false, 0, 0), Op(false, 0, 0, 0, 0, 0, 0, 0), Scan(0, 0, 0xFF), Scan(0, 0, 0xFFFF), Wear(false, 0),
         BLOCKS % 1024, t)
  }

  function Step(c: Codec, r: Regs, i: Pins): Regs
    requires Formed(r)
  {
    if !i.rstN then Reset(r.tables)
    else match r.state
      case Idle => StepIdle(r, i)
      case Fetch | Coalesce => StepAccept(r, i)
      case FtlTranslate =>
        r.(axi := r.axi.(arready := false), op := r.op.(pba := r.tables.l2p[r.op.base % MAP_SIZE]),
           state := if r.op.write then EccGen else PageRead)
      case EccGen => r.(op := r.op.(ecc := c.encode(r.op.wdata)), state := PageProgram)
      case PageProgram => StepProgram(r)
      case PageRead => r.(nand := Command(r.nand, 0x00, READ_CLOCKS), state := ReadWait)
      case ProgWait | ReadWait | EraseWait => StepWait(r, i)
      case AfeSense =>
        r.(axi := r.axi.(rvalid := true, rdata := c.decode(r.op.rdata), rlast := true), state := Respond)
      case GcSelect => StepSelect(r)
      case GcCopy => r.(tables := r.tables.(gcValid := r.tables.gcValid[r.gc.victim := 0]), state := BlockErase)
      case BlockErase =>
        r.(nand := Command(r.nand, 0x60, ERASE_CLOCKS), freeBlocks := (r.freeBlocks + 1) % 1024, state := EraseWait)
      case WlRemap => StepRemap(r)
      case Respond => StepRespond(r, i)
  }

  function StepIdle(r: Regs, i: Pins): Regs
    requires Formed(r)
  {
    var quiet := r.axi.(bvalid := false, rvalid := false, rlast := false);
    if !r.boot.done then
      var p, q := r.boot.ptr, r.boot.pePtr;
      r.(axi := quiet,
         tables := Tables(r.tables.l2p[p := p], r.tables.pe[q := 0], r.tables.gcValid[q := 0]),
         boot := Boot(p == 0xFF && q == BLOCKS - 1, (p + 1) % MAP_SIZE, if q == BLOCKS - 1 then q else q + 1))
    else if r.freeBlocks < GC_THRESHOLD then
      r.(axi := quiet, gc := Scan(0, 0, 0xFF), state := GcSelect)
    else if i.awvalid && !r.axi.awready then
      r.(axi := quiet.(awready := true), state := Fetch)
    else if i.arvalid && !r.axi.arready then
      r.(axi := quiet.(arready := true), op := r.op.(write := false, base := i.araddr, len := i.arlen),
         state := FtlTranslate)
    else r.(axi := quiet)
  }

  function StepAccept(r: Regs, i: Pins): Regs {
    if r.state == Fetch then
      r.(axi := r.axi.(awready := false, wready := true),
         op := r.op.(write := true, base := i.awaddr, len := i.awlen, beats := 0), state := Coalesce)
    else if i.wvalid && r.axi.wready then
      var taken := r.(op := r.op.(beats := (r.op.beats + 1) % 256, wdata := i.wdata));
      if i.wlast then taken.(axi := r.axi.(wready := false), state := FtlTranslate) else taken
    else r
  }

  /** A command byte goes out for one clock and the wait counter is loaded. */
  function Command(n: Nand, code: nat, clocks: nat): Nand {
    Nand(true, false, false, code, true, clocks)
  }

  function StepProgram(r: Regs): Regs
    requires Formed(r)
  {
    var b := r.op.pba % BLOCKS;
    r.(nand := Command(r.nand, 0x80, PROGRAM_CLOCKS),
       tables := r.tables.(pe := r.tables.pe[b := (r.tables.pe[b] + 1) % 0x1_0000]),
       wear := if r.tables.pe[b] > TLC_MAX_PE then Wear(true, r.op.pba) else r.wear.(needed := false),
       state := ProgWait)
  }

  function StepWait(r: Regs, i: Pins): Regs {
    var low := r.nand.(cle := false, weN := true, ioOe := false);
    if r.nand.wait > 0 then r.(nand := low.(wait := r.nand.wait - 1))
    else if !i.nandRb then r.(nand := low)
    else match r.state
      case ProgWait =>
        if r.wear.needed then r.(nand := low, wl := Scan(0, 0, 0xFFFF), state := WlRemap)
        else r.(nand := low, state := Respond)
      case ReadWait => r.(nand := low, op := r.op.(rdata := i.nandIo), state := AfeSense)
      case _ => r.(nand := low.(ceN := true), state := Idle)
  }

  /** One step of a search for the first least entry. */
  function Look(s: Scan, table: seq<nat>): (t: Scan)
    requires s.ptr < |table| && |table| == BLOCKS
    ensures t.ptr < BLOCKS && (s.victim < BLOCKS ==> t.victim < BLOCKS)
  {
    if s.ptr == 0 then Scan(1, 0, table[0])
    else if table[s.ptr] < s.least then Scan((s.ptr + 1) % BLOCKS, s.ptr, table[s.ptr])
    else s.(ptr := (s.ptr + 1) % BLOCKS)
  }

  function StepSelect(r: Regs): Regs
    requires Formed(r)
  {
    r.(gc := Look(r.gc, r.tables.gcValid), state := if r.gc.ptr == BLOCKS - 1 then GcCopy else GcSelect)
  }

  function StepRemap(r: Regs): Regs
    requires Formed(r)
  {
    var looked := r.(wl := Look(r.wl, r.tables.pe));
    if r.wl.ptr == BLOCKS - 1 then
      looked.(tables := r.tables.(l2p := r.tables.l2p[r.wl.victim % MAP_SIZE := r.wear.hot]), state := Respond)
    else looked
  }

  function StepRespond(r: Regs, i: Pins): Regs {
    var off := r.(nand := r.nand.(ceN := true));
    if r.op.write then
      if i.bready && r.axi.bvalid then off.(axi := r.axi.(bvalid := false), state := Idle)
      else off.(axi := r.axi.(bvalid := true))
    else if i.rready && r.axi.rvalid then off.(axi := r.axi.(rvalid := false, rlast := false), state := Idle)
    else if !r.axi.rvalid then off.(state := Idle)
    else off
  }

  // ---------------------------------------------------------------- what every clock keeps

  predicate WriteOnly(s: State) {
    s.Coalesce? || s.EccGen? || s.PageProgram? || s.ProgWait? || s.WlRemap?
  }

  predicate ReadOnly(s: State) {
    s.PageRead? || s.ReadWait? || s.AfeSense?
  }

  /** The ready and valid registers, state by state. */
  ghost predicate Handshakes(r: Regs) {
    && (r.axi.awready <==> r.state.Fetch?)
    && (r.axi.wready <==> r.state.Coalesce?)
    && (r.axi.arready <==> r.state.FtlTranslate? && !r.op.write)
    && (r.axi.rvalid <==> r.state.Respond? && !r.op.write)
    && (r.axi.rlast <==> r.axi.rvalid)
    && (r.axi.bvalid ==> r.state.Respond? && r.op.write)
    && (WriteOnly(r.state) ==> r.op.write)
    && (ReadOnly(r.state) ==> !r.op.write)
  }

  predicate Collecting(s: State) {
    s.GcSelect? || s.GcCopy? || s.BlockErase?
  }

  /** Tables fill up in step during start-up, and no request is served before GC_THRESHOLD erases. */
  ghost predicate Booted(r: Regs) {
    && Formed(r)
    && r.freeBlocks <= GC_THRESHOLD
    && (Collecting(r.state) ==> r.freeBlocks < GC_THRESHOLD)
    && (!r.state.Idle? && !r.state.EraseWait? && !Collecting(r.state) ==> r.freeBlocks == GC_THRESHOLD)
    && if r.boot.done then Filled(r.tables, BLOCKS) && r.op.pba < MAP_SIZE && r.wear.hot < MAP_SIZE
       else && r.state.Idle? && r.freeBlocks == 0 && r.op.pba == r.wear.hot == 0
            && r.boot.ptr == r.boot.pePtr % MAP_SIZE && Filled(r.tables, r.boot.pePtr)
  }

  /** The first n entries are initialised: logical pages map below 256, no other block was ever programmed. */
  ghost predicate Filled(t: Tables, n: nat) {
    && Sized(t) && n <= BLOCKS
    && (forall k :: 0 <= k < n && k < MAP_SIZE ==> t.l2p[k] < MAP_SIZE)
    && (forall k :: MAP_SIZE <= k < n ==> t.pe[k] == 0)
    && (forall k :: 0 <= k < n ==> t.gcValid[k] == 0)
  }

  predicate Issued(r: Regs) {
    || (r.state.ProgWait? && r.nand.wait == PROGRAM_CLOCKS)
    || (r.state.ReadWait? && r.nand.wait == READ_CLOCKS)
    || (r.state.EraseWait? && r.nand.wait == ERASE_CLOCKS)
  }

  /** A command is strobed for exactly the first clock of its wait, with the chip selected. */
  ghost predicate Pulses(r: Regs) {
    && (r.nand.cle <==> Issued(r)) && (r.nand.ioOe <==> Issued(r)) && (!r.nand.weN <==> Issued(r))
    && (r.state.ProgWait? ==> r.nand.io == 0x80 && !r.nand.ceN && r.nand.wait <= PROGRAM_CLOCKS)
    && (r.state.ReadWait? ==> r.nand.io == 0x00 && !r.nand.ceN && r.nand.wait <= READ_CLOCKS)
    && (r.state.EraseWait? ==> r.nand.io == 0x60 && !r.nand.ceN && r.nand.wait <= ERASE_CLOCKS)
    && (r.state.Idle? || r.state.Fetch? || r.state.Coalesce? || r.state.FtlTranslate? ==> r.nand.ceN)
  }

  /** The search has found the first least entry below n. */
  ghost predicate LeastBelow(s: Scan, table: seq<nat>, n: nat) {
    && s.victim < n <= |table| && s.least == table[s.victim]
    && forall k :: 0 <= k < n ==> s.least <= table[k] && (k < s.victim ==> s.least < table[k])
  }

  ghost predicate Scans(r: Regs) {
    && Formed(r)
    && (r.state.GcSelect? && r.gc.ptr > 0 ==> LeastBelow(r.gc, r.tables.gcValid, r.gc.ptr))
    && (r.state.GcCopy? ==> LeastBelow(r.gc, r.tables.gcValid, BLOCKS))
    && (r.state.WlRemap? && r.wl.ptr > 0 ==> LeastBelow(r.wl, r.tables.pe, r.wl.ptr))
  }

  /** The pending operation works on the page its address is mapped to. */
  ghost predicate Translated(r: Regs) {
    && Formed(r)
    && (r.state.EccGen? || r.state.PageProgram? || r.state.ProgWait? || r.state.WlRemap? || ReadOnly(r.state) ==>
          r.op.pba == r.tables.l2p[r.op.base % MAP_SIZE])
    && ((r.state.ProgWait? || r.state.WlRemap?) && r.wear.needed ==> r.wear.hot == r.op.pba)
    && (r.state.WlRemap? ==> r.wear.needed)
  }

  ghost predicate Inv(r: Regs) {
    Handshakes(r) && Booted(r) && Pulses(r) && Scans(r) && Translated(r)
  }

  lemma ResetInv(t: Tables)
    requires Sized(t)
    ensures Inv(Reset(t))
  {
  }

  lemma IdleInv(r: Regs, i: Pins)
    requires Inv(r) && r.state.Idle?
    ensures Inv(StepIdle(r, i))
  {
    hide LeastBelow;
  }

  lemma AcceptInv(r: Regs, i: Pins)
    requires Inv(r) && (r.state.Fetch? || r.state.Coalesce?)
    ensures Inv(StepAccept(r, i))
  {
    hide LeastBelow;
    hide Filled;
  }

  lemma ProgramInv(r: Regs)
    requires Inv(r) && r.state.PageProgram?
    ensures Inv(StepProgram(r))
  {
    hide LeastBelow;
  }

  lemma WaitInv(r: Regs, i: Pins)
    requires Inv(r) && (r.state.ProgWait? || r.state.ReadWait? || r.state.EraseWait?)
    ensures Inv(StepWait(r, i))
  {
    hide LeastBelow;
    hide Filled;
  }

  lemma LookLeast(s: Scan, table: seq<nat>)
    requires s.ptr < |table| && |table| == BLOCKS && (s.ptr > 0 ==> LeastBelow(s, table, s.ptr))
    ensures LeastBelow(Look(s, table), table, s.ptr + 1)
  {
  }

  lemma SelectInv(r: Regs)
    requires Inv(r) && r.state.GcSelect?
    ensures Inv(StepSelect(r))
  {
  }

  lemma RemapInv(r: Regs)
    requires Inv(r) && r.state.WlRemap?
    ensures Inv(StepRemap(r))
  {
    LookLeast(r.wl, r.tables.pe);
    hide LeastBelow;
  }

  lemma RespondInv(r: Regs, i: Pins)
    requires Inv(r) && r.state.Respond?
    ensures Inv(StepRespond(r, i))
  {
    hide LeastBelow;
    hide Filled;
  }

  lemma SimpleInv(c: Codec, r: Regs, i: Pins)
    requires Inv(r) && i.rstN
    requires r.state.FtlTranslate? || r.state.EccGen? || r.state.PageRead? || r.state.AfeSense?
    ensures Inv(Step(c, r, i))
  {
    hide LeastBelow;
  }

  lemma EraseInv(c: Codec, r: Regs, i: Pins)
    requires Inv(r) && i.rstN && (r.state.GcCopy? || r.state.BlockErase?)
    ensures Inv(Step(c, r, i))
  {
    hide LeastBelow;
  }

  /** Every clock, whatever the pins do, keeps all of it. */
  lemma StepInv(c: Codec, r: Regs, i: Pins)
    requires Inv(r)
    ensures Inv(Step(c, r, i))
  {
    hide Handshakes;
    hide Pulses;
    hide Scans;
    hide Translated;
    hide Filled;
    if !i.rstN {
      ResetInv(r.tables);
    } else {
      match r.state {
        case Idle => IdleInv(r, i);
        case Fetch => AcceptInv(r, i);
        case Coalesce => AcceptInv(r, i);
        case PageProgram => ProgramInv(r);
        case ProgWait => WaitInv(r, i);
        case ReadWait => WaitInv(r, i);
        case EraseWait => WaitInv(r, i);
        case GcSelect => SelectInv(r);
        case GcCopy => EraseInv(c, r, i);
        case BlockErase => EraseInv(c, r, i);
        case WlRemap => RemapInv(r);
        case Respond => RespondInv(r, i);
        case _ => SimpleInv(c, r, i);
      }
    }
  }

  // ---------------------------------------------------------------- whole runs

  /** The registers after a run that starts in reset with any tables. */
  function Run(c: Codec, t: Tables, inputs: seq<Pins>): (r: Regs)
    requires Sized(t)
    ensures Inv(r)
  {
    if inputs == [] then
      ResetInv(t);
      Reset(t)
    else
      var before := Run(c, t, inputs[..|inputs| - 1]);
      StepInv(c, before, inputs[|inputs| - 1]);
      Step(c, before, inputs[|inputs| - 1])
  }

  /** Address beats accepted, response beats taken and erases issued since the last reset. */
  datatype Tally = Tally(aw: nat, ar: nat, b: nat, rd: nat, erases: nat)

  function One(p: bool): nat {
    if p then 1 else 0
  }

  function Count(n: Tally, r: Regs, i: Pins): Tally {
    if !i.rstN then Tally(0, 0, 0, 0, 0)
    else Tally(n.aw + One(r.axi.awready), n.ar + One(r.axi.arready), n.b + One(r.axi.bvalid && i.bready),
               n.rd + One(r.axi.rvalid && i.rready), n.erases + One(r.state.BlockErase?))
  }

  function Tallied(c: Codec, t: Tables, inputs: seq<Pins>): Tally
    requires Sized(t)
  {
    if inputs == [] then Tally(0, 0, 0, 0, 0)
    else
      var before := inputs[..|inputs| - 1];
      Count(Tallied(c, t, before), Run(c, t, before), inputs[|inputs| - 1])
  }

  predicate WriteOpen(r: Regs) {
    r.op.write && (WriteOnly(r.state) || r.state.FtlTranslate? || r.state.Respond?)
  }

  predicate ReadOpen(r: Regs) {
    !r.op.write && (ReadOnly(r.state) || r.state.Respond?)
  }

  /** The tallies agree with the registers. */
  ghost predicate Balanced(n: Tally, r: Regs) {
    && n.aw == n.b + One(WriteOpen(r))
    && n.ar == n.rd + One(ReadOpen(r))
    && n.erases == r.freeBlocks
    && (n.aw + n.ar > 0 ==> n.erases == GC_THRESHOLD)
  }

  lemma BalancedMeans(n: Tally, r: Regs)
    requires Balanced(n, r)
    ensures n.b <= n.aw <= n.b + 1 && n.rd <= n.ar <= n.rd + 1 && n.aw + n.ar <= n.b + n.rd + 1
    ensures r.state.Idle? ==> n.aw == n.b && n.ar == n.rd
    ensures n.aw + n.ar > 0 ==> n.erases == GC_THRESHOLD
  {
  }

  lemma StepBalanced(c: Codec, r: Regs, i: Pins, n: Tally)
    requires Inv(r) && Balanced(n, r)
    ensures Balanced(Count(n, r, i), Step(c, r, i))
  {
    hide Filled;
    hide LeastBelow;
    hide Look;
    hide Pulses;
    hide Translated;
    hide Scans;
    match r.state {
      case Idle =>
      case Fetch =>
      case Coalesce =>
      case ProgWait =>
      case ReadWait =>
      case EraseWait =>
      case Respond =>
      case _ =>
    }
  }

  /** In every run each accepted request gets exactly one response beat, the one outstanding request aside,
      and nothing is accepted before the blocks have been erased GC_THRESHOLD times, nor is any erased after. */
  lemma {:induction false} OneResponseEach(c: Codec, t: Tables, inputs: seq<Pins>)
    requires Sized(t)
    ensures Balanced(Tallied(c, t, inputs), Run(c, t, inputs))
  {
    if inputs != [] {
      var before := inputs[..|inputs| - 1];
      OneResponseEach(c, t, before);
      hide Inv;
      hide Balanced;
      StepBalanced(c, Run(c, t, before), inputs[|inputs| - 1], Tallied(c, t, before));
    }
  }

  /** A response stays valid, with its data, until the host takes it, and is dropped the clock it does. */
  lemma ResponseHeld(c: Codec, r: Regs, i: Pins)
    requires Inv(r) && i.rstN
    ensures var s := Step(c, r, i);
            && (r.axi.bvalid ==> (s.axi.bvalid <==> !i.bready))
            && (r.axi.rvalid ==>
                  (s.axi.rvalid <==> !i.rready) && (s.axi.rlast <==> !i.rready) && s.axi.rdata == r.axi.rdata)
  {
  }

  /** A read that reaches its response already has valid data: the branch that gives up never runs. */
  lemma ReadResponseReady(c: Codec, t: Tables, inputs: seq<Pins>)
    requires Sized(t)
    ensures var r := Run(c, t, inputs);
            r.state.Respond? && !r.op.write ==> r.axi.rvalid && r.axi.rlast
  {
  }

  /** No block ever counts a valid page, so the collector picks block 0 every time. */
  lemma VictimIsBlockZero(c: Codec, t: Tables, inputs: seq<Pins>)
    requires Sized(t)
    ensures Run(c, t, inputs).state.GcCopy? ==> Run(c, t, inputs).gc.victim == 0
  {
    var r := Run(c, t, inputs);
    assert Inv(r);
    assert r.state.GcCopy? ==> r.tables.gcValid[0] == 0 && r.tables.gcValid[r.gc.victim] == 0;
  }

  ghost predicate Distinct(m: seq<nat>) {
    forall a, b :: 0 <= a < b < |m| ==> m[a] != m[b]
  }

  /** What every wear remap does, in terms of the tables alone. Its victim is the first block whose count is zero,
      and no later one than block 256, which no page maps to; the page of that number is mapped to the worn block
      as well. The map stays injective exactly for written addresses of that same page, which from the identity
      map, with the worn block's count not wrapped, means page 0 after all 256 blocks have been programmed. */
  lemma RemapAliasesExactly(c: Codec, t: Tables, inputs: seq<Pins>)
    requires Sized(t) && Run(c, t, inputs).state.WlRemap? && Run(c, t, inputs).wl.ptr == BLOCKS - 1
    ensures var r := Run(c, t, inputs);
            Remapped(r.tables, StepRemap(r).tables, r.wl.victim, r.op.base % MAP_SIZE)
  {
    var r := Run(c, t, inputs);
    hide Run;
    RemapStep(r);
  }

  ghost predicate Remapped(before: Tables, after: Tables, v: nat, a: nat) {
    && |before.l2p| == |after.l2p| == MAP_SIZE && |before.pe| == BLOCKS && a < MAP_SIZE
    && v <= MAP_SIZE && before.pe[v] == 0 && (forall k :: 0 <= k < v ==> before.pe[k] > 0)
    && after.l2p == before.l2p[v % MAP_SIZE := before.l2p[a]]
    && (Distinct(before.l2p) ==> (Distinct(after.l2p) <==> v % MAP_SIZE == a))
    && (Identity(before.l2p) && before.pe[a] > 0 ==> (Distinct(after.l2p) <==> v == MAP_SIZE && a == 0))
  }

  lemma RemapStep(r: Regs)
    requires Inv(r) && r.state.WlRemap? && r.wl.ptr == BLOCKS - 1
    ensures Remapped(r.tables, StepRemap(r).tables, r.wl.victim, r.op.base % MAP_SIZE)
  {
    FirstUnused(r);
    RemapMap(r);
    hide Inv;
    hide StepRemap;
    RemapOfMap(r.tables, StepRemap(r).tables, r.wl.victim, r.op.base % MAP_SIZE);
  }

  lemma RemapOfMap(before: Tables, after: Tables, v: nat, a: nat)
    requires |before.l2p| == MAP_SIZE && |before.pe| == BLOCKS && a < MAP_SIZE
    requires v <= MAP_SIZE && before.pe[v] == 0 && forall k :: 0 <= k < v ==> before.pe[k] > 0
    requires after.l2p == before.l2p[v % MAP_SIZE := before.l2p[a]]
    ensures Remapped(before, after, v, a)
  {
    if Distinct(before.l2p) {
      AliasOrSame(before.l2p, v % MAP_SIZE, a);
    }
    assert v < MAP_SIZE ==> v % MAP_SIZE == v;
  }

  ghost predicate Identity(m: seq<nat>) {
    |m| == MAP_SIZE && forall k :: 0 <= k < MAP_SIZE ==> m[k] == k
  }

  lemma AliasOrSame(l2p: seq<nat>, v: nat, a: nat)
    requires v < |l2p| && a < |l2p| && Distinct(l2p)
    ensures Distinct(l2p[v := l2p[a]]) <==> v == a
  {
    var m := l2p[v := l2p[a]];
    if v == a {
      assert m == l2p;
    } else {
      assert m[v] == m[a];
    }
  }

  lemma RemapMap(r: Regs)
    requires Inv(r) && r.state.WlRemap? && r.wl.ptr == BLOCKS - 1
    ensures |r.tables.l2p| == MAP_SIZE && |r.tables.pe| == BLOCKS
    ensures StepRemap(r).tables.l2p
              == r.tables.l2p[r.wl.victim % MAP_SIZE := r.tables.l2p[r.op.base % MAP_SIZE]]
  {
    hide LeastBelow;
  }

  lemma FirstUnused(r: Regs)
    requires Inv(r) && r.state.WlRemap? && r.wl.ptr == BLOCKS - 1
    ensures r.wl.victim <= MAP_SIZE && r.tables.pe[r.wl.victim] == 0
    ensures forall k :: 0 <= k < r.wl.victim ==> r.tables.pe[k] > 0
  {
    assert r.tables.pe[MAP_SIZE] == 0;
  }

  // ---------------------------------------------------------------- every excursion ends

  /** The outside world makes the controller wait in this clock. */
  predicate Stalls(r: Regs, i: Pins) {
    || (r.state.Coalesce? && !(i.wvalid && i.wlast))
    || ((r.state.ProgWait? || r.state.ReadWait? || r.state.EraseWait?) && r.nand.wait == 0 && !i.nandRb)
    || (r.state.Respond? && ((r.axi.bvalid && !i.bready) || (r.axi.rvalid && !i.rready)))
  }

  /** How many clocks that do not stall are at most left before the controller is idle again. */
  function Left(r: Regs): nat {
    var remap := BLOCKS + 2;
    var program := PROGRAM_CLOCKS + 1 + remap;
    match r.state
    case Idle => 0
    case Fetch => program + 5
    case Coalesce => program + 4
    case FtlTranslate => if r.op.write then program + 3 else READ_CLOCKS + 5
    case EccGen => program + 2
    case PageProgram => program + 1
    case ProgWait => r.nand.wait + 1 + remap
    case WlRemap => if r.wl.ptr < BLOCKS then BLOCKS - r.wl.ptr + 2 else 2
    case PageRead => READ_CLOCKS + 4
    case ReadWait => r.nand.wait + 3
    case AfeSense => 2
    case Respond => if r.axi.bvalid || r.axi.rvalid then 1 else 2
    case GcSelect => (if r.gc.ptr < BLOCKS then BLOCKS - r.gc.ptr else 0) + ERASE_CLOCKS + 3
    case GcCopy => ERASE_CLOCKS + 3
    case BlockErase => ERASE_CLOCKS + 2
    case EraseWait => r.nand.wait + 1
  }

  ghost predicate Nearer(before: Regs, after: Regs, stalled: bool) {
    Left(after) <= Left(before) && (!stalled ==> Left(after) < Left(before))
  }

  lemma WaitProgress(r: Regs, i: Pins)
    requires Inv(r) && (r.state.ProgWait? || r.state.ReadWait? || r.state.EraseWait?)
    ensures Nearer(r, StepWait(r, i), Stalls(r, i))
  {
    hide Booted;
    hide Scans;
  }

  lemma BusProgress(r: Regs, i: Pins)
    requires Inv(r)
    ensures r.state.Fetch? || r.state.Coalesce? ==> Nearer(r, StepAccept(r, i), Stalls(r, i))
    ensures r.state.Respond? ==> Nearer(r, StepRespond(r, i), Stalls(r, i))
  {
    hide Booted;
    hide Scans;
  }

  lemma StepProgress(c: Codec, r: Regs, i: Pins)
    requires Inv(r) && i.rstN && !r.state.Idle?
    ensures Nearer(r, Step(c, r, i), Stalls(r, i))
  {
    match r.state {
      case ProgWait => WaitProgress(r, i);
      case ReadWait => WaitProgress(r, i);
      case EraseWait => WaitProgress(r, i);
      case Fetch => BusProgress(r, i);
      case Coalesce => BusProgress(r, i);
      case Respond => BusProgress(r, i);
      case _ =>
        hide Filled;
        hide LeastBelow;
        hide StepWait;
        hide StepAccept;
        hide StepRespond;
    }
  }

  /** The registers n clocks later. */
  function After(c: Codec, r: Regs, inputs: seq<Pins>, n: nat): (s: Regs)
    requires Inv(r) && n <= |inputs|
    ensures Inv(s)
  {
    if n == 0 then r
    else
      var before := After(c, r, inputs, n - 1);
      StepInv(c, before, inputs[n - 1]);
      Step(c, before, inputs[n - 1])
  }

  /** The clocks among the first n in which nothing outside stalls the controller. */
  function Unstalled(c: Codec, r: Regs, inputs: seq<Pins>, n: nat): nat
    requires Inv(r) && n <= |inputs|
  {
    if n == 0 then 0
    else Unstalled(c, r, inputs, n - 1) + One(!Stalls(After(c, r, inputs, n - 1), inputs[n - 1]))
  }

  lemma AfterNext(c: Codec, r: Regs, inputs: seq<Pins>, n: nat)
    requires Inv(r) && n < |inputs|
    ensures After(c, r, inputs, n + 1) == Step(c, After(c, r, inputs, n), inputs[n])
    ensures Unstalled(c, r, inputs, n + 1)
              == Unstalled(c, r, inputs, n) + One(!Stalls(After(c, r, inputs, n), inputs[n]))
  {
    hide Inv;
    hide Step;
  }

  lemma {:induction false} ProgressSoFar(c: Codec, r: Regs, inputs: seq<Pins>, n: nat)
    requires Inv(r) && n <= |inputs| && forall k :: 0 <= k < n ==> inputs[k].rstN
    requires forall k: nat :: k < n ==> !After(c, r, inputs, k).state.Idle?
    ensures Left(After(c, r, inputs, n)) + Unstalled(c, r, inputs, n) <= Left(r)
  {
    hide Inv;
    hide Step;
    hide Left;
    hide Stalls;
    if n > 0 {
      AfterNext(c, r, inputs, n - 1);
      hide After;
      hide Unstalled;
      ProgressSoFar(c, r, inputs, n - 1);
      StepProgress(c, After(c, r, inputs, n - 1), inputs[n - 1]);
    }
  }

  /** From any reachable state the controller is idle again within Left clocks that do not stall it. */
  lemma ReturnsToIdle(c: Codec, r: Regs, inputs: seq<Pins>)
    requires Inv(r) && (forall k :: 0 <= k < |inputs| ==> inputs[k].rstN)
    requires Unstalled(c, r, inputs, |inputs|) >= Left(r)
    ensures exists k: nat :: k <= |inputs| && After(c, r, inputs, k).state.Idle?
  {
    hide Inv;
    hide Unstalled;
    hide After;
    if forall k: nat :: k < |inputs| ==> !After(c, r, inputs, k).state.Idle? {
      ProgressSoFar(c, r, inputs, |inputs|);
      assert After(c, r, inputs, |inputs|).state.Idle?;
    }
  }

  // ---------------------------------------------------------------- the clocked registers

  class TopController {
    const codec: Codec
    var state: State
    var axi: Axi
    var nand: Nand
    var boot: Boot
    var op: Op
    var gc: Scan
    var wl: Scan
    var wear: Wear
    var freeBlocks: nat
    var l2pMap: seq<nat>
    var peCycles: seq<nat>
    var gcValid: seq<nat>

    ghost function Abs(): Regs
      reads this
    {
      Regs(state, axi, nand, boot, op, gc, wl, wear, freeBlocks, Tables(l2pMap, peCycles, gcValid))
    }

    /** Power-up: any tables, and the reset line low. */
    constructor (codec_: Codec, tables: Tables)
      requires Sized(tables)
      ensures codec == codec_ && Abs() == Reset(tables) && Inv(Abs())
    {
      codec := codec_;
      l2pMap, peCycles, gcValid := tables.l2p, tables.pe, tables.gcValid;
      state, freeBlocks := Idle, BLOCKS % 1024;
      axi := Axi(false, false, false, false, false, false, 0);
      nand := Nand(false, true, true, 0, false, 0);
      boot := Boot(false, 0, 0);
      op := Op(false, 0, 0, 0, 0, 0, 0, 0);
      gc, wl, wear := Scan(0, 0, 0xFF), Scan(0, 0, 0xFFFF), Wear(false, 0);
      new;
      ResetInv(tables);
    }

    /** One rising edge of the clock. */
    method Tick(i: Pins)
      requires Inv(Abs())
      modifies this
      ensures Abs() == Step(codec, old(Abs()), i) && Inv(Abs())
    {
      ghost var was := Abs();
      StepInv(codec, was, i);
      hide Inv;
      if !i.rstN {
        OnReset();
      } else if state.Idle? {
        OnIdle(i);
      } else if state.Fetch? || state.Coalesce? {
        OnAccept(i);
      } else if state.ProgWait? || state.ReadWait? || state.EraseWait? {
        OnWait(i);
      } else if state.Respond? {
        OnRespond(i);
      } else if state.GcSelect? || state.GcCopy? || state.BlockErase? || state.WlRemap? {
        OnCollect(i);
      } else {
        OnPipeline(i);
      }
    }

    method OnReset()
      modifies this
      ensures Abs() == Reset(old(Abs()).tables)
    {
      state, freeBlocks := Idle, BLOCKS % 1024;
      axi := Axi(false, false, false, false, false, false, 0);
      nand := Nand(false, true, true, 0, false, 0);
      boot := Boot(false, 0, 0);
      op := Op(false, 0, 0, 0, 0, 0, 0, 0);
      gc, wl, wear := Scan(0, 0, 0xFF), Scan(0, 0, 0xFFFF), Wear(false, 0);
    }

    /** Fills the tables after reset, then serves the collector, writes and reads in that order. */
    method OnIdle(i: Pins)
      requires Formed(Abs()) && state.Idle?
      modifies this
      ensures Abs() == StepIdle(old(Abs()), i)
    {
      axi := axi.(bvalid := false, rvalid := false, rlast := false);
      if !boot.done {
        l2pMap := l2pMap[boot.ptr := boot.ptr];
        peCycles := peCycles[boot.pePtr := 0];
        gcValid := gcValid[boot.pePtr := 0];
        var last := boot.ptr == 0xFF && boot.pePtr == BLOCKS - 1;
        boot := boot.(ptr := (boot.ptr + 1) % MAP_SIZE,
                      pePtr := if boot.pePtr == BLOCKS - 1 then boot.pePtr else boot.pePtr + 1);
        if last {
          boot := boot.(done := true);
        }
      } else if freeBlocks < GC_THRESHOLD {
        state, gc := GcSelect, Scan(0, 0, 0xFF);
      } else if i.awvalid && !axi.awready {
        axi, state := axi.(awready := true), Fetch;
      } else if i.arvalid && !axi.arready {
        axi := axi.(arready := true);
        op := op.(write := false, base := i.araddr, len := i.arlen);
        state := FtlTranslate;
      }
    }

    method OnAccept(i: Pins)
      requires state.Fetch? || state.Coalesce?
      modifies this
      ensures Abs() == StepAccept(old(Abs()), i)
    {
      if state.Fetch? {
        op := op.(len := i.awlen, base := i.awaddr, write := true, beats := 0);
        axi := axi.(awready := false, wready := true);
        state := Coalesce;
      } else if i.wvalid && axi.wready {
        op := op.(beats := (op.beats + 1) % 256, wdata := i.wdata);
        if i.wlast {
          axi, state := axi.(wready := false), FtlTranslate;
        }
      }
    }

    method Issue(code: nat, clocks: nat)
      modifies this`nand
      ensures nand == Command(old(nand), code, clocks)
    {
      nand := nand.(cle := true, weN := false, io := code, ioOe := true, ceN := false, wait := clocks);
    }

    method OnPipeline(i: Pins)
      requires Formed(Abs()) && i.rstN
      requires state.FtlTranslate? || state.EccGen? || state.PageProgram? || state.PageRead? || state.AfeSense?
      modifies this
      ensures Abs() == Step(codec, old(Abs()), i)
    {
      match state {
        case FtlTranslate =>
          axi := axi.(arready := false);
          op := op.(pba := l2pMap[op.base % MAP_SIZE]);
          state := if op.write then EccGen else PageRead;
        case EccGen =>
          op := op.(ecc := codec.encode(op.wdata));
          state := PageProgram;
        case PageProgram =>
          Issue(0x80, PROGRAM_CLOCKS);
          var b := op.pba % BLOCKS;
          if peCycles[b] > TLC_MAX_PE {
            wear := Wear(true, op.pba);
          } else {
            wear := wear.(needed := false);
          }
          peCycles := peCycles[b := (peCycles[b] + 1) % 0x1_0000];
          state := ProgWait;
        case PageRead =>
          Issue(0x00, READ_CLOCKS);
          state := ReadWait;
        case AfeSense =>
          axi := axi.(rvalid := true, rdata := codec.decode(op.rdata), rlast := true);
          state := Respond;
      }
    }

    method OnWait(i: Pins)
      requires state.ProgWait? || state.ReadWait? || state.EraseWait?
      modifies this
      ensures Abs() == StepWait(old(Abs()), i)
    {
      nand := nand.(cle := false, weN := true, ioOe := false);
      if nand.wait > 0 {
        nand := nand.(wait := nand.wait - 1);
      } else if i.nandRb {
        match state {
          case ProgWait =>
            if wear.needed {
              state, wl := WlRemap, Scan(0, 0, 0xFFFF);
            } else {
              state := Respond;
            }
          case ReadWait =>
            op, state := op.(rdata := i.nandIo), AfeSense;
          case EraseWait =>
            nand, state := nand.(ceN := true), Idle;
        }
      }
    }

    method OnCollect(i: Pins)
      requires Formed(Abs()) && i.rstN
      requires state.GcSelect? || state.GcCopy? || state.BlockErase? || state.WlRemap?
      modifies this
      ensures Abs() == Step(codec, old(Abs()), i)
    {
      match state {
        case GcSelect =>
          var done := gc.ptr == BLOCKS - 1;
          gc := LookAt(gc, gcValid);
          if done {
            state := GcCopy;
          }
        case GcCopy =>
          gcValid := gcValid[gc.victim := 0];
          state := BlockErase;
        case BlockErase =>
          Issue(0x60, ERASE_CLOCKS);
          freeBlocks := (freeBlocks + 1) % 1024;
          state := EraseWait;
        case WlRemap =>
          if wl.ptr == BLOCKS - 1 {
            l2pMap := l2pMap[wl.victim % MAP_SIZE := wear.hot];
            state := Respond;
          }
          wl := LookAt(wl, peCycles);
      }
    }

    /** One clock of a search over a table. */
    method LookAt(s: Scan, table: seq<nat>) returns (t: Scan)
      requires s.ptr < |table| && |table| == BLOCKS
      ensures t == Look(s, table)
    {
      t := s;
      if s.ptr == 0 {
        t := Scan(1, 0, table[0]);
      } else {
        if table[s.ptr] < s.least {
          t := t.(least := table[s.ptr], victim := s.ptr);
        }
        t := t.(ptr := (s.ptr + 1) % BLOCKS);
      }
    }

    method OnRespond(i: Pins)
      requires state.Respond?
      modifies this
      ensures Abs() == StepRespond(old(Abs()), i)
    {
      nand := nand.(ceN := true);
      if op.write {
        if i.bready && axi.bvalid {
          axi, state := axi.(bvalid := false), Idle;
        } else {
          axi := axi.(bvalid := true);
        }
      } else {
        if i.rready && axi.rvalid {
          axi, state := axi.(rvalid := false, rlast := false), Idle;
        } else if !axi.rvalid {
          state := Idle;
        }
      }
    }
  }

  lemma RunNext(c: Codec, t: Tables, inputs: seq<Pins>, k: nat)
    requires Sized(t) && k < |inputs|
    ensures Formed(Run(c, t, inputs[..k]))
    ensures Run(c, t, inputs[..k + 1]) == Step(c, Run(c, t, inputs[..k]), inputs[k])
    ensures Tallied(c, t, inputs[..k + 1]) == Count(Tallied(c, t, inputs[..k]), Run(c, t, inputs[..k]), inputs[k])
  {
    hide Step;
    hide Count;
    assert inputs[..k + 1][..k] == inputs[..k];
  }

  /** What the host sees of a run: every acceptance and every response, counted from the pins alone. */
  method Observe(c: Codec, t: Tables, inputs: seq<Pins>) returns (seen: Tally, idle: bool)
    requires Sized(t)
    ensures seen == Tallied(c, t, inputs)
    ensures seen.b <= seen.aw <= seen.b + 1 && seen.rd <= seen.ar <= seen.rd + 1
    ensures seen.aw + seen.ar <= seen.b + seen.rd + 1
    ensures idle ==> seen.aw == seen.b && seen.ar == seen.rd
    ensures seen.aw + seen.ar > 0 ==> seen.erases == GC_THRESHOLD
  {
    hide Inv;
    hide Step;
    hide Reset;
    assert inputs[..0] == [];
    var top := new TopController(c, t);
    seen := Tally(0, 0, 0, 0, 0);
    for k := 0 to |inputs|
      invariant fresh(top) && top.codec == c
      invariant Inv(top.Abs()) && top.Abs() == Run(c, t, inputs[..k])
      invariant seen == Tallied(c, t, inputs[..k])
    {
      RunNext(c, t, inputs, k);
      var i := inputs[k];
      ghost var before, was := seen, top.Abs();
      if !i.rstN {
        seen := Tally(0, 0, 0, 0, 0);
      } else {
        seen := Tally(seen.aw + One(top.axi.awready), seen.ar + One(top.axi.arready),
                      seen.b + One(top.axi.bvalid && i.bready), seen.rd + One(top.axi.rvalid && i.rready),
                      seen.erases + One(top.state.BlockErase?));
      }
      assert seen == Count(before, was, i);
      top.Tick(i);
    }
    assert inputs[..|inputs|] == inputs;
    OneResponseEach(c, t, inputs);
    BalancedMeans(seen, Run(c, t, inputs));
    hide Balanced;
    idle := top.state.Idle?;
  }
}
