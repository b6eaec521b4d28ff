/** The controller against its pins: what each request works on, what a read answers, when a wait is over, and what all
    writes since reset have made of the tables. */
module AxiTransactions {
  import opened AxiController

  // ---------------------------------------------------------------- the tables as the writes make them

  datatype Book = Book(pages: seq<nat>, counts: seq<nat>)

  ghost predicate Bound(b: Book) {
    |b.pages| == 256 && |b.counts| == 1024 && forall k :: 0 <= k < 256 ==> b.pages[k] < 256
  }

  /** After start-up every page is mapped to the block of its number and no block has been programmed. */
  function Opening(): (b: Book)
    ensures Bound(b)
  {
    Book(seq(256, k => k), seq(1024, _ => 0))
  }

  /** The first of the least entries among the first n. */
  function FirstLeast(s: seq<nat>, n: nat): (v: nat)
    requires 0 < n <= |s|
    ensures v < n && forall k :: 0 <= k < n ==> s[v] <= s[k] && (k < v ==> s[v] < s[k])
  {
    if n == 1 then 0
    else
      var v := FirstLeast(s, n - 1);
      if s[n - 1] < s[v] then n - 1 else v
  }

  /** The block a write to an address is meant for. */
  function BlockFor(b: Book, address: nat): (block: nat)
    requires Bound(b)
    ensures block < 256
  {
    b.pages[address % 256]
  }

  /** One more program of that block. */
  function Programmed(b: Book, address: nat): (t: Book)
    requires Bound(b)
    ensures Bound(t)
  {
    b.(counts := b.counts[BlockFor(b, address) := (b.counts[BlockFor(b, address)] + 1) % 65536])
  }

  predicate Worn(b: Book, address: nat)
    requires Bound(b)
  {
    b.counts[BlockFor(b, address)] > 3000
  }

  /** A write: its block is programmed, and if that had been done too often already, the page whose number is that of
      the least used block is mapped there too. */
  function Entered(b: Book, address: nat): (t: Book)
    requires Bound(b)
    ensures Bound(t)
  {
    var p := Programmed(b, address);
    if Worn(b, address) then p.(pages := p.pages[FirstLeast(p.counts, 1024) % 256 := BlockFor(b, address)]) else p
  }

  /** All writes to these addresses, in order. */
  function Kept(addresses: seq<nat>): (b: Book)
    ensures Bound(b)
  {
    if addresses == [] then Opening() else Entered(Kept(addresses[..|addresses| - 1]), addresses[|addresses| - 1])
  }

  /** How many of the writes are to one page. */
  function Times(addresses: seq<nat>, page: nat): nat {
    if addresses == [] then 0
    else
      Times(addresses[..|addresses| - 1], page) + One(addresses[|addresses| - 1] % 256 == page)
  }

  /** As long as no page has been written more than 3001 times the map is the one of start-up, and each block's count
      is that of the writes to its page. */
  lemma {:induction false} UnwornKept(addresses: seq<nat>)
    requires forall p: nat :: p < 256 ==> Times(addresses, p) <= 3001
    ensures Kept(addresses).pages == seq(256, k => k)
    ensures forall p: nat :: p < 1024 ==> Kept(addresses).counts[p] == if p < 256 then Times(addresses, p) else 0
  {
    if addresses != [] {
      var before, page := addresses[..|addresses| - 1], addresses[|addresses| - 1] % 256;
      assert forall p: nat :: Times(addresses, p) == Times(before, p) + One(page == p);
      UnwornKept(before);
      assert Times(before, page) <= 3000;
      assert !Worn(Kept(before), addresses[|addresses| - 1]);
    }
  }

  // ---------------------------------------------------------------- a watcher at the pins

  /** What the flash is busy with. */
  datatype Job = Nothing | Programming | Sensing | Erasing

  /** What a watcher of the pins has noted since reset: the clocks gone by; the request in hand, its data beats, their
      last word and whether that beat came with wlast; of the clock before, the two address valids and the read
      address; the clocks the flash still needs and what for; what it drove when its last read was over; the addresses
      of all writes accepted, the number of reads accepted, and the commands of each kind given. */
  datatype Watch = Watch(clocks: nat, write: bool, addr: nat, len: nat, beats: nat, word: nat, ended: bool,
                         awvalid: bool, arvalid: bool, araddr: nat, arlen: nat, timer: nat, job: Job, sensed: nat,
                         writes: seq<nat>, asked: nat, programs: nat, senses: nat, erasures: nat)

  const NOTHING: Watch :=
    Watch(0, false, 0, 0, 0, 0, false, false, false, 0, 0, 0, Nothing, 0, [], 0, 0, 0, 0)

  /** What the flash is busy with in this clock, and the clocks it still needs: a command byte counts from the clock it
      is on the pins. */
  function JobNow(w: Watch, nand: Nand): Job {
    if !nand.cle then w.job else if nand.io == 0x80 then Programming else if nand.io == 0x00 then Sensing else Erasing
  }

  function Remaining(w: Watch, nand: Nand): nat {
    if !nand.cle then w.timer
    else if nand.io == 0x80 then 30000 else if nand.io == 0x00 then 2500 else 300000
  }

  /** The flash is done in this clock: its time is over and it is not busy. */
  predicate Over(w: Watch, nand: Nand, i: Pins) {
    Remaining(w, nand) == 0 && i.nandRb
  }

  function Strobe(nand: Nand, code: nat): nat {
    One(nand.cle && nand.io == code)
  }

  /** The flash side of one clock. */
  function FlashNoted(w: Watch, nand: Nand, i: Pins): Watch {
    var over := Over(w, nand, i);
    w.(timer := if Remaining(w, nand) > 0 then Remaining(w, nand) - 1 else 0,
       job := if over then Nothing else JobNow(w, nand),
       sensed := if over && JobNow(w, nand) == Sensing then i.nandIo else w.sensed,
       programs := w.programs + Strobe(nand, 0x80), senses := w.senses + Strobe(nand, 0x00),
       erasures := w.erasures + Strobe(nand, 0x60))
  }

  /** One clock: only output pins and input pins are looked at. */
  function Noted(w: Watch, axi: Axi, nand: Nand, i: Pins): Watch {
    if !i.rstN then NOTHING
    else
      var n := FlashNoted(w, nand, i).(clocks := w.clocks + 1, awvalid := i.awvalid, arvalid := i.arvalid,
                                       araddr := i.araddr, arlen := i.arlen);
      if axi.awready then
        n.(write := true, addr := i.awaddr, len := i.awlen, beats := 0, ended := false,
           writes := w.writes + [i.awaddr])
      else if axi.arready then n.(write := false, addr := w.araddr, len := w.arlen, asked := w.asked + 1)
      else if axi.wready && i.wvalid then n.(beats := (w.beats + 1) % 256, word := i.wdata, ended := i.wlast)
      else n
  }

  function Watched(c: Codec, t: Tables, inputs: seq<Pins>): Watch
    requires Sized(t)
  {
    if inputs == [] then NOTHING
    else
      var before := inputs[..|inputs| - 1];
      var r := Run(c, t, before);
      Noted(Watched(c, t, before), r.axi, r.nand, inputs[|inputs| - 1])
  }

  // ---------------------------------------------------------------- what the registers have to do with it

  /** The request in hand is the one the pins asked for. */
  ghost predicate RequestFits(c: Codec, w: Watch, r: Regs) {
    && (WriteOpen(r) || ReadOpen(r) ==> r.op.base == w.addr && r.op.len == w.len && r.op.write == w.write)
    && (WriteOpen(r) ==> w.writes != [] && w.writes[|w.writes| - 1] == w.addr)
    && (WriteOpen(r) ==> r.op.beats == w.beats && (w.ended <==> !r.state.Coalesce?))
    && (WriteOpen(r) && !r.state.Coalesce? ==> r.op.wdata == w.word)
    && (r.state.PageProgram? || r.state.ProgWait? || r.state.WlRemap? ==> r.op.ecc == c.encode(w.word))
    && (r.axi.arready ==> r.op.base == w.araddr && r.op.len == w.arlen && w.arvalid && !w.awvalid)
    && (r.axi.awready ==> w.awvalid)
    && (r.state.AfeSense? ==> r.op.rdata == w.sensed)
    && (r.axi.rvalid ==> r.axi.rdata == c.decode(w.sensed))
  }

  /** The registers wait for what the flash is busy with, as long as it needs, and no command is given but one for each
      request. */
  ghost predicate FlashFits(w: Watch, r: Regs) {
    && (r.state.ProgWait? <==> JobNow(w, r.nand) == Programming)
    && (r.state.ReadWait? <==> JobNow(w, r.nand) == Sensing)
    && (r.state.EraseWait? <==> JobNow(w, r.nand) == Erasing)
    && (JobNow(w, r.nand) != Nothing ==> r.nand.wait == Remaining(w, r.nand))
    && w.programs + Strobe(r.nand, 0x80)
         + One(WriteOpen(r) && !r.state.ProgWait? && !r.state.WlRemap? && !r.state.Respond?) == |w.writes|
    && w.senses + Strobe(r.nand, 0x00) + One(r.state.PageRead?) == w.asked
    && w.erasures + Strobe(r.nand, 0x60) == r.freeBlocks
  }

  /** The tables are those that the writes make, a write in hand counted from its program command and a remap from its
      end. */
  ghost predicate BookFits(w: Watch, r: Regs) {
    if !r.boot.done then w.writes == [] && w.clocks == r.boot.pePtr && OpenUpTo(r.tables, r.boot.pePtr)
    else
      w.clocks >= 1024 &&
      if WriteOpen(r) && !r.state.Respond? then
        w.writes != [] && HalfEntered(Kept(w.writes[..|w.writes| - 1]), w.writes[|w.writes| - 1], r)
      else r.tables.l2p == Kept(w.writes).pages && r.tables.pe == Kept(w.writes).counts
  }

  ghost predicate HalfEntered(b: Book, address: nat, r: Regs)
    requires Bound(b)
  {
    && r.tables.l2p == b.pages
    && if r.state.ProgWait? || r.state.WlRemap? then
         r.tables.pe == Programmed(b, address).counts && (r.wear.needed <==> Worn(b, address))
       else r.tables.pe == b.counts
  }

  ghost predicate OpenUpTo(t: Tables, n: nat) {
    && Sized(t) && n < 1024
    && (forall k :: 0 <= k < n && k < 256 ==> t.l2p[k] == k)
    && (forall k :: 0 <= k < n ==> t.pe[k] == 0)
  }

  lemma RequestIdle(c: Codec, w: Watch, r: Regs, i: Pins)
    requires Inv(r) && RequestFits(c, w, r) && FlashFits(w, r) && i.rstN
    requires r.state.Idle?
    ensures RequestFits(c, Noted(w, r.axi, r.nand, i), Step(c, r, i))
  {
    hide Booted;
    hide Scans;
    hide Translated;
    hide Pulses;
  }

  lemma RequestAccept(c: Codec, w: Watch, r: Regs, i: Pins)
    requires Inv(r) && RequestFits(c, w, r) && FlashFits(w, r) && i.rstN
    requires r.state.Fetch? || r.state.Coalesce?
    ensures RequestFits(c, Noted(w, r.axi, r.nand, i), Step(c, r, i))
  {
    hide Booted;
    hide Scans;
    hide Translated;
    hide Pulses;
  }

  lemma RequestWait(c: Codec, w: Watch, r: Regs, i: Pins)
    requires Inv(r) && RequestFits(c, w, r) && FlashFits(w, r) && i.rstN
    requires r.state.ProgWait? || r.state.ReadWait? || r.state.EraseWait?
    ensures RequestFits(c, Noted(w, r.axi, r.nand, i), Step(c, r, i))
  {
    hide Booted;
    hide Scans;
    hide Translated;
    hide Pulses;
  }

  lemma RequestRespond(c: Codec, w: Watch, r: Regs, i: Pins)
    requires Inv(r) && RequestFits(c, w, r) && FlashFits(w, r) && i.rstN
    requires r.state.Respond?
    ensures RequestFits(c, Noted(w, r.axi, r.nand, i), Step(c, r, i))
  {
    hide Booted;
    hide Scans;
    hide Translated;
    hide Pulses;
  }

  lemma RequestPipeline(c: Codec, w: Watch, r: Regs, i: Pins)
    requires Inv(r) && RequestFits(c, w, r) && FlashFits(w, r) && i.rstN
    requires r.state.FtlTranslate? || r.state.EccGen? || r.state.PageProgram? || r.state.PageRead? || r.state.AfeSense?
    ensures RequestFits(c, Noted(w, r.axi, r.nand, i), Step(c, r, i))
  {
    hide Booted;
    hide Scans;
    hide Translated;
    hide Pulses;
  }

  lemma RequestCollect(c: Codec, w: Watch, r: Regs, i: Pins)
    requires Inv(r) && RequestFits(c, w, r) && FlashFits(w, r) && i.rstN
    requires r.state.GcSelect? || r.state.GcCopy? || r.state.BlockErase? || r.state.WlRemap?
    ensures RequestFits(c, Noted(w, r.axi, r.nand, i), Step(c, r, i))
  {
    hide Booted;
    hide Scans;
    hide Translated;
    hide Pulses;
  }

  lemma FlashIdle(c: Codec, w: Watch, r: Regs, i: Pins)
    requires Inv(r) && FlashFits(w, r) && i.rstN
    requires r.state.Idle?
    ensures FlashFits(Noted(w, r.axi, r.nand, i), Step(c, r, i))
  {
    hide Booted;
    hide Scans;
    hide Translated;
  }

  lemma FlashAccept(c: Codec, w: Watch, r: Regs, i: Pins)
    requires Inv(r) && FlashFits(w, r) && i.rstN
    requires r.state.Fetch? || r.state.Coalesce?
    ensures FlashFits(Noted(w, r.axi, r.nand, i), Step(c, r, i))
  {
    hide Booted;
    hide Scans;
    hide Translated;
  }

  lemma FlashWait(c: Codec, w: Watch, r: Regs, i: Pins)
    requires Inv(r) && FlashFits(w, r) && i.rstN
    requires r.state.ProgWait? || r.state.ReadWait? || r.state.EraseWait?
    ensures FlashFits(Noted(w, r.axi, r.nand, i), Step(c, r, i))
  {
    hide Booted;
    hide Scans;
    hide Translated;
  }

  lemma FlashRespond(c: Codec, w: Watch, r: Regs, i: Pins)
    requires Inv(r) && FlashFits(w, r) && i.rstN
    requires r.state.Respond?
    ensures FlashFits(Noted(w, r.axi, r.nand, i), Step(c, r, i))
  {
    hide Booted;
    hide Scans;
    hide Translated;
  }

  lemma FlashPipeline(c: Codec, w: Watch, r: Regs, i: Pins)
    requires Inv(r) && FlashFits(w, r) && i.rstN
    requires r.state.FtlTranslate? || r.state.EccGen? || r.state.AfeSense?
    ensures FlashFits(Noted(w, r.axi, r.nand, i), Step(c, r, i))
  {
    hide Booted;
    hide Scans;
    hide Translated;
  }

  lemma FlashCommand(c: Codec, w: Watch, r: Regs, i: Pins)
    requires Inv(r) && FlashFits(w, r) && i.rstN
    requires r.state.PageProgram? || r.state.PageRead?
    ensures FlashFits(Noted(w, r.axi, r.nand, i), Step(c, r, i))
  {
    hide Booted;
    hide Scans;
    hide Translated;
  }

  lemma FlashCollect(c: Codec, w: Watch, r: Regs, i: Pins)
    requires Inv(r) && FlashFits(w, r) && i.rstN
    requires r.state.GcSelect? || r.state.GcCopy? || r.state.BlockErase? || r.state.WlRemap?
    ensures FlashFits(Noted(w, r.axi, r.nand, i), Step(c, r, i))
  {
    hide Filled;
    hide Scans;
    hide Translated;
  }

  lemma OpenedFully(t: Tables)
    requires Sized(t)
    requires (forall k :: 0 <= k < 256 ==> t.l2p[k] == k) && (forall k :: 0 <= k < 1024 ==> t.pe[k] == 0)
    ensures t.l2p == Kept([]).pages && t.pe == Kept([]).counts
  {
  }

  /** All of a clock that the tables' bookkeeping depends on. */
  lemma NotedWrites(w: Watch, axi: Axi, nand: Nand, i: Pins)
    requires i.rstN
    ensures var n := Noted(w, axi, nand, i);
            && n.clocks == w.clocks + 1
            && n.writes == if axi.awready then w.writes + [i.awaddr] else w.writes
  {
  }

  lemma BookIdle(w: Watch, r: Regs, i: Pins)
    requires Handshakes(r) && Booted(r) && BookFits(w, r) && i.rstN && r.state.Idle?
    ensures BookFits(Noted(w, r.axi, r.nand, i), StepIdle(r, i))
  {
    hide Filled;
    hide Kept;
    hide Noted;
    hide HalfEntered;
    NotedWrites(w, r.axi, r.nand, i);
    var s := StepIdle(r, i);
    if !r.boot.done && s.boot.done {
      OpenedFully(s.tables);
    }
  }

  predicate Waiting(r: Regs) {
    r.state.ProgWait? || r.state.ReadWait? || r.state.EraseWait?
  }

  lemma BookWait(w: Watch, r: Regs, i: Pins)
    requires Handshakes(r) && Booted(r) && BookFits(w, r) && i.rstN && Waiting(r)
    ensures BookFits(Noted(w, r.axi, r.nand, i), StepWait(r, i))
  {
    hide Filled;
    hide Kept;
    hide Noted;
    NotedWrites(w, r.axi, r.nand, i);
    if WriteOpen(r) && StepWait(r, i).state.Respond? {
      KeptUnworn(w.writes);
    }
  }

  lemma KeptUnworn(addresses: seq<nat>)
    requires addresses != []
    ensures var a, before := addresses[|addresses| - 1], Kept(addresses[..|addresses| - 1]);
            Kept(addresses) == if Worn(before, a) then Entered(before, a) else Programmed(before, a)
  {
  }

  /** The other steps that leave the tables alone. */
  lemma BookSame(c: Codec, w: Watch, r: Regs, i: Pins)
    requires Handshakes(r) && Booted(r) && BookFits(w, r) && RequestFits(c, w, r) && i.rstN
    requires !r.state.Idle? && !r.state.PageProgram? && !r.state.WlRemap? && !Waiting(r)
    ensures BookFits(Noted(w, r.axi, r.nand, i), Step(c, r, i))
  {
    hide Filled;
    hide Kept;
    hide Noted;
    hide Look;
    hide StepIdle;
    hide StepWait;
    hide StepRemap;
    hide StepProgram;
    NotedWrites(w, r.axi, r.nand, i);
  }

  lemma BookProgram(c: Codec, w: Watch, r: Regs, i: Pins)
    requires Handshakes(r) && Booted(r) && Translated(r) && BookFits(w, r) && RequestFits(c, w, r)
    requires i.rstN && r.state.PageProgram?
    ensures BookFits(Noted(w, r.axi, r.nand, i), StepProgram(r))
  {
    hide Filled;
    hide Kept;
    hide Noted;
    hide Command;
    NotedWrites(w, r.axi, r.nand, i);
  }

  lemma FirstLeastUnique(s: seq<nat>, n: nat, v: nat)
    requires 0 < n <= |s| && v < n && forall k :: 0 <= k < n ==> s[v] <= s[k] && (k < v ==> s[v] < s[k])
    ensures v == FirstLeast(s, n)
  {
  }

  lemma BookRemap(c: Codec, w: Watch, r: Regs, i: Pins)
    requires Handshakes(r) && Booted(r) && Translated(r) && BookFits(w, r) && RequestFits(c, w, r)
    requires i.rstN && r.state.WlRemap?
    requires r.wl.ptr == 1023 ==> r.wl.victim == FirstLeast(r.tables.pe, 1024)
    ensures BookFits(Noted(w, r.axi, r.nand, i), StepRemap(r))
  {
    hide Filled;
    hide Kept;
    hide Noted;
    hide Look;
    hide FirstLeast;
    NotedWrites(w, r.axi, r.nand, i);
    if r.wl.ptr == 1023 {
      KeptWorn(w.writes);
    }
  }

  lemma KeptWorn(addresses: seq<nat>)
    requires addresses != []
    ensures Kept(addresses) == Entered(Kept(addresses[..|addresses| - 1]), addresses[|addresses| - 1])
  {
  }

  lemma RemapVictim(r: Regs)
    requires Inv(r) && r.state.WlRemap? && r.wl.ptr == 1023
    ensures r.wl.victim == FirstLeast(r.tables.pe, 1024)
  {
    FirstUnused(r);
    FirstLeastUnique(r.tables.pe, 1024, r.wl.victim);
  }

  // ---------------------------------------------------------------- every run

  ghost predicate Fits(c: Codec, w: Watch, r: Regs) {
    RequestFits(c, w, r) && FlashFits(w, r) && BookFits(w, r)
  }

  lemma StartFits(c: Codec, t: Tables)
    requires Sized(t)
    ensures Fits(c, NOTHING, Reset(t))
  {
  }

  lemma ResetFits(c: Codec, w: Watch, r: Regs, i: Pins)
    requires Inv(r) && !i.rstN
    ensures Fits(c, Noted(w, r.axi, r.nand, i), Step(c, r, i))
  {
    StartFits(c, r.tables);
    hide Fits;
    hide Reset;
  }

  lemma StepFits(c: Codec, w: Watch, r: Regs, i: Pins)
    requires Inv(r) && Fits(c, w, r)
    ensures Fits(c, Noted(w, r.axi, r.nand, i), Step(c, r, i))
  {
    hide RequestFits;
    hide FlashFits;
    hide BookFits;
    hide Noted;
    hide Handshakes;
    hide Booted;
    hide Pulses;
    hide Scans;
    hide Translated;
    if !i.rstN {
      ResetFits(c, w, r, i);
    } else if r.state.Idle? {
      RequestIdle(c, w, r, i);
      FlashIdle(c, w, r, i);
      BookIdle(w, r, i);
    } else if Waiting(r) {
      RequestWait(c, w, r, i);
      FlashWait(c, w, r, i);
      BookWait(w, r, i);
    } else {
      OtherFits(c, w, r, i);
    }
  }

  lemma OtherFits(c: Codec, w: Watch, r: Regs, i: Pins)
    requires Inv(r) && Fits(c, w, r) && i.rstN && !r.state.Idle? && !Waiting(r)
    ensures Fits(c, Noted(w, r.axi, r.nand, i), Step(c, r, i))
  {
    hide RequestFits;
    hide FlashFits;
    hide BookFits;
    hide Noted;
    hide Handshakes;
    hide Booted;
    hide Pulses;
    hide Scans;
    hide Translated;
    if r.state.Fetch? || r.state.Coalesce? {
      RequestAccept(c, w, r, i);
      FlashAccept(c, w, r, i);
    } else if r.state.Respond? {
      RequestRespond(c, w, r, i);
      FlashRespond(c, w, r, i);
    } else if r.state.GcSelect? || r.state.GcCopy? || r.state.BlockErase? || r.state.WlRemap? {
      RequestCollect(c, w, r, i);
      FlashCollect(c, w, r, i);
    } else {
      RequestPipeline(c, w, r, i);
      if r.state.PageProgram? || r.state.PageRead? {
        FlashCommand(c, w, r, i);
      } else {
        FlashPipeline(c, w, r, i);
      }
    }
    if r.state.PageProgram? {
      BookProgram(c, w, r, i);
    } else if r.state.WlRemap? {
      if r.wl.ptr == 1023 {
        RemapVictim(r);
      }
      BookRemap(c, w, r, i);
    } else {
      BookSame(c, w, r, i);
    }
  }

  /** Whatever the pins do, what the watcher noted accounts for the registers after every run. */
  lemma {:induction false} RunFits(c: Codec, t: Tables, inputs: seq<Pins>)
    requires Sized(t)
    ensures Fits(c, Watched(c, t, inputs), Run(c, t, inputs))
  {
    if inputs == [] {
      StartFits(c, t);
    } else {
      var before := inputs[..|inputs| - 1];
      RunFits(c, t, before);
      hide Fits;
      hide Inv;
      hide Step;
      hide Noted;
      StepFits(c, Watched(c, t, before), Run(c, t, before), inputs[|inputs| - 1]);
    }
  }

  /** A write goes to the block its address, as it was on the pins in the clock of awready, is mapped to by all writes
      before it, and the code is that of the word of the beat that came with wlast; a read goes to the block that the
      address of the clock before arready is mapped to by all writes. */
  lemma RequestsGoWhereMapped(c: Codec, t: Tables, inputs: seq<Pins>)
    requires Sized(t)
    ensures var w, r := Watched(c, t, inputs), Run(c, t, inputs);
            r.state.PageProgram? ==>
              && w.write && w.ended && w.writes != [] && w.writes[|w.writes| - 1] == w.addr
              && r.op.pba == BlockFor(Kept(w.writes[..|w.writes| - 1]), w.addr)
              && r.op.ecc == c.encode(w.word)
    ensures var w, r := Watched(c, t, inputs), Run(c, t, inputs);
            r.state.PageRead? ==> !w.write && r.op.pba == BlockFor(Kept(w.writes), w.addr)
  {
    RunFits(c, t, inputs);
    var w, r := Watched(c, t, inputs), Run(c, t, inputs);
    hide Run;
    hide Watched;
    hide Kept;
    assert Handshakes(r) && Booted(r) && Translated(r);
    hide Inv;
  }

  /** Each response comes after one command of its kind for every request so far, with the flash at rest, and a read's
      data is what the decoder makes of what the flash drove when that wait was over. */
  lemma ResponsesAreDue(c: Codec, t: Tables, inputs: seq<Pins>)
    requires Sized(t)
    ensures var w, r := Watched(c, t, inputs), Run(c, t, inputs);
            && (r.axi.bvalid || r.axi.rvalid ==>
                  w.programs == |w.writes| && w.senses == w.asked && JobNow(w, r.nand) == Nothing)
            && (r.axi.bvalid ==> w.write && w.ended)
            && (r.axi.rvalid ==> !w.write && r.axi.rdata == c.decode(w.sensed))
  {
    RunFits(c, t, inputs);
    var w, r := Watched(c, t, inputs), Run(c, t, inputs);
    hide Run;
    hide Watched;
    hide Kept;
    assert Handshakes(r) && Pulses(r);
    hide Inv;
  }

  /** Between requests the tables are those that the writes make, from the 1024th clock after reset on. The ready lines
      answer the valid lines of the clock before, a write's first, and none does before start-up and 100 erases. */
  lemma TablesAreKept(c: Codec, t: Tables, inputs: seq<Pins>)
    requires Sized(t)
    ensures var w, r := Watched(c, t, inputs), Run(c, t, inputs);
            && (r.boot.done <==> w.clocks >= 1024)
            && (r.boot.done && r.state.Idle? ==>
                  r.tables.l2p == Kept(w.writes).pages && r.tables.pe == Kept(w.writes).counts)
            && (r.axi.awready ==> w.awvalid)
            && (r.axi.arready ==> w.arvalid && !w.awvalid)
            && (r.axi.awready || r.axi.arready ==> w.clocks >= 1024 && w.erasures == 100)
  {
    RunFits(c, t, inputs);
    var w, r := Watched(c, t, inputs), Run(c, t, inputs);
    hide Run;
    hide Watched;
    hide Kept;
    assert Handshakes(r) && Booted(r) && Pulses(r);
    hide Inv;
  }

  /** An idle controller that is past start-up and its erases answers at once: a write if there is one, else a read. */
  lemma RequestsAreTaken(c: Codec, t: Tables, inputs: seq<Pins>, i: Pins)
    requires Sized(t) && i.rstN && Run(c, t, inputs).state.Idle?
    requires Watched(c, t, inputs).clocks >= 1024 && Watched(c, t, inputs).erasures == 100
    ensures var s := Step(c, Run(c, t, inputs), i);
            (s.axi.awready <==> i.awvalid) && (s.axi.arready <==> i.arvalid && !i.awvalid)
  {
    TablesAreKept(c, t, inputs);
    RunFits(c, t, inputs);
  }
}
