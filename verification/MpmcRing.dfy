/** The bounded multi-producer multi-consumer ring. Any number of threads run Push and Pop;
    each event below is one atomic step of one thread, and a run is any sequence of events.
    Entries are copied word by word, so a torn copy would be visible. */
module MpmcRing {
  import opened Bits

  type Word = int
  type Entry = seq<Word>

  /** One slot. The ticket is a history variable: the ticket whose turn the slot is. */
  datatype Cell = Cell(sequence: nat, data: Entry, ticket: nat)

  /** Where a thread stands between two atomic steps. */
  datatype Pc =
    | Idle
    | PushAt(v: Entry, pos: nat)             // position loaded, slot sequence not yet
    | PushReload(v: Entry)                   // the slot was ahead: load the position again
    | PushTry(v: Entry, pos: nat)            // sequence matched: about to compare and swap
    | PushCopy(v: Entry, pos: nat, copied: nat)
    | PushFull(v: Entry, pos: nat)           // Push returned false
    | Pushed(v: Entry, pos: nat)             // Push returned true
    | PopAt(pos: nat)
    | PopReload
    | PopTry(pos: nat)
    | PopCopy(pos: nat, buf: Entry)
    | PopEmpty(pos: nat)                     // Pop returned false
    | Popped(pos: nat, value: Entry)         // Pop returned true

  datatype Event =
    | CallPush(v: Entry)
    | CallPop
    | LoadSequence
    | ReloadPosition
    | Cas(spurious: bool)                    // a weak compare and swap may fail for no reason
    | CopyWord
    | Publish
    | Return

  /** The ring with its threads. The log (ticket to pushed entry) and received (ticket to popped
      entry) are history variables that no step reads. */
  datatype Ring = Ring(
    size: nat, width: nat, cells: seq<Cell>, enq: nat, deq: nat, threads: seq<Pc>,
    log: seq<Entry>, received: map<nat, Entry>)

  function Slot(pos: nat, size: nat): nat
    requires size > 0
  {
    BitAnd(pos, size - 1)
  }

  ghost predicate GoodSize(size: nat) {
    size > 0 && IsPow2(size)
  }

  lemma SlotFacts(a: nat, b: nat, size: nat)
    requires GoodSize(size)
    ensures Slot(a, size) < size
    ensures a < size ==> Slot(a, size) == a
    ensures Slot(a + size, size) == Slot(a, size)
    ensures a < b && Slot(a, size) == Slot(b, size) ==> a + size <= b
  {
    var n: nat :| Pow2(n) == size;
    MaskBelow(a, n);
    MaskPeriodic(a, n);
    if a < b && Slot(a, size) == Slot(b, size) {
      MaskApart(a, b, n);
    }
  }

  lemma SlotsInRange(size: nat)
    requires GoodSize(size)
    ensures forall k: nat :: Slot(k, size) < size
  {
    forall k: nat ensures Slot(k, size) < size {
      SlotFacts(k, k, size);
    }
  }

  // ---------------------------------------------------------------- construction

  const SIZE_MAX: nat := 0xffff_ffff_ffff_ffff

  /** The constructor's size: the request itself when it is a power of two, else the next one. Nought passes the
      test too, one less than it being the greatest number, and gives a ring of no cells. */
  method RoundedSize(requested: nat) returns (size: nat)
    ensures requested > 0 ==> GoodSize(size) && requested <= size
    ensures requested > 0 ==> forall m: nat :: IsPow2(m) && requested <= m ==> size <= m
    ensures requested == 0 ==> size == 0
  {
    if requested > 0 {
      PowerOfTwoTest(requested);
    }
    var below := if requested == 0 then SIZE_MAX else requested - 1;
    size := requested;
    if BitAnd(requested, below) != 0 {
      size := 1;
      ghost var n: nat := 0;
      while size < requested
        invariant size == Pow2(n)
        invariant forall k: nat :: k < n ==> Pow2(k) < requested
        decreases requested - size
      {
        n := n + 1;
        size := size * 2;
      }
      forall m: nat | IsPow2(m) && requested <= m ensures size <= m {
        var k: nat :| Pow2(k) == m;
        if k > n {
          Pow2Increasing(n, k);
        }
      }
    }
  }

  ghost predicate Init(s: Ring) {
    && GoodSize(s.size)
    && |s.cells| == s.size
    && (forall i :: 0 <= i < s.size ==>
          s.cells[i].sequence == i && s.cells[i].ticket == i && |s.cells[i].data| == s.width)
    && s.enq == 0 && s.deq == 0
    && (forall t :: 0 <= t < |s.threads| ==> s.threads[t] == Idle)
    && s.log == [] && s.received == map[]
  }

  // ---------------------------------------------------------------- steps

  ghost predicate Shape(s: Ring) {
    GoodSize(s.size) && |s.cells| == s.size
  }

  function CellAt(s: Ring, pos: nat): Cell
    requires Shape(s)
  {
    SlotFacts(pos, pos, s.size);
    s.cells[Slot(pos, s.size)]
  }

  function SetCell(s: Ring, pos: nat, c: Cell): (r: Ring)
    requires Shape(s)
    ensures Shape(r)
  {
    SlotFacts(pos, pos, s.size);
    s.(cells := s.cells[Slot(pos, s.size) := c])
  }

  function SetPc(s: Ring, t: nat, pc: Pc): (r: Ring)
    requires t < |s.threads|
  {
    s.(threads := s.threads[t := pc])
  }

  /** One atomic step of thread t; an event that does not fit the thread changes nothing. */
  function Step(s: Ring, t: nat, e: Event): (r: Ring)
    requires Shape(s) && t < |s.threads|
    ensures Shape(r) && |r.threads| == |s.threads| && r.size == s.size && r.width == s.width
  {
    match (s.threads[t], e)
    // Push
    case (Idle, CallPush(v)) =>
      if |v| == s.width then SetPc(s, t, PushAt(v, s.enq)) else s
    case (PushAt(v, pos), LoadSequence) =>
      var seen := CellAt(s, pos).sequence;
      if seen == pos then SetPc(s, t, PushTry(v, pos))
      else if seen < pos then SetPc(s, t, PushFull(v, pos))
      else SetPc(s, t, PushReload(v))
    case (PushReload(v), ReloadPosition) =>
      SetPc(s, t, PushAt(v, s.enq))
    case (PushTry(v, pos), Cas(spurious)) =>
      if s.enq == pos && !spurious then
        SetPc(s.(enq := pos + 1, log := s.log + [v]), t, PushCopy(v, pos, 0))
      else SetPc(s, t, PushAt(v, s.enq))
    case (PushCopy(v, pos, copied), CopyWord) =>
      var c := CellAt(s, pos);
      if copied < |v| && copied < |c.data| then
        SetPc(SetCell(s, pos, c.(data := c.data[copied := v[copied]])), t, PushCopy(v, pos, copied + 1))
      else s
    case (PushCopy(v, pos, copied), Publish) =>
      if copied == |v| then
        SetPc(SetCell(s, pos, CellAt(s, pos).(sequence := pos + 1)), t, Pushed(v, pos))
      else s
    case (PushFull(_, _), Return) => SetPc(s, t, Idle)
    case (Pushed(_, _), Return) => SetPc(s, t, Idle)
    // Pop
    case (Idle, CallPop) => SetPc(s, t, PopAt(s.deq))
    case (PopAt(pos), LoadSequence) =>
      var seen := CellAt(s, pos).sequence;
      if seen == pos + 1 then SetPc(s, t, PopTry(pos))
      else if seen < pos + 1 then SetPc(s, t, PopEmpty(pos))
      else SetPc(s, t, PopReload)
    case (PopReload, ReloadPosition) => SetPc(s, t, PopAt(s.deq))
    case (PopTry(pos), Cas(spurious)) =>
      if s.deq == pos && !spurious then SetPc(s.(deq := pos + 1), t, PopCopy(pos, []))
      else SetPc(s, t, PopAt(s.deq))
    case (PopCopy(pos, buf), CopyWord) =>
      var c := CellAt(s, pos);
      if |buf| < |c.data| then SetPc(s, t, PopCopy(pos, buf + [c.data[|buf|]])) else s
    case (PopCopy(pos, buf), Publish) =>
      if |buf| == s.width then
        SetPc(SetCell(s, pos, CellAt(s, pos).(sequence := pos + s.size, ticket := pos + s.size))
              .(received := s.received[pos := buf]), t, Popped(pos, buf))
      else s
    case (PopEmpty(_), Return) => SetPc(s, t, Idle)
    case (Popped(_, _), Return) => SetPc(s, t, Idle)
    case _ => s
  }

  /** A run: which thread moves, and how. */
  function Run(s: Ring, trace: seq<(nat, Event)>): (r: Ring)
    requires Shape(s)
    requires forall k :: 0 <= k < |trace| ==> trace[k].0 < |s.threads|
    ensures Shape(r) && |r.threads| == |s.threads| && r.size == s.size && r.width == s.width
    decreases |trace|
  {
    if trace == [] then s
    else
      var n := |trace| - 1;
      Step(Run(s, trace[..n]), trace[n].0, trace[n].1)
  }

  // ---------------------------------------------------------------- the invariant

  ghost predicate Pushing(s: Ring, t: nat, k: nat) {
    t < |s.threads| && s.threads[t].PushCopy? && s.threads[t].pos == k
  }

  ghost predicate Popping(s: Ring, t: nat, k: nat) {
    t < |s.threads| && s.threads[t].PopCopy? && s.threads[t].pos == k
  }

  ghost predicate CellOk(s: Ring, i: nat)
    requires Shape(s) && i < s.size && s.enq == |s.log|
  {
    var c := s.cells[i];
    && Slot(c.ticket, s.size) == i && |c.data| == s.width
    && c.ticket < s.deq + s.size && s.enq <= c.ticket + s.size
    && (c.sequence == c.ticket || c.sequence == c.ticket + 1)
    && (c.sequence == c.ticket ==> s.deq <= c.ticket)
    && (c.sequence == c.ticket + 1 ==> c.ticket < s.enq && c.data == s.log[c.ticket])
    && (c.sequence == c.ticket && c.ticket < s.enq ==> exists t: nat :: Pushing(s, t, c.ticket))
    && (c.sequence == c.ticket + 1 && c.ticket < s.deq ==> exists t: nat :: Popping(s, t, c.ticket))
  }

  ghost predicate ThreadOk(s: Ring, t: nat)
    requires Shape(s) && t < |s.threads| && s.enq == |s.log|
  {
    match s.threads[t]
    case PushAt(v, pos) => pos <= s.enq && |v| == s.width
    case PushReload(v) => |v| == s.width
    case PushTry(v, pos) => pos <= s.enq && pos <= CellAt(s, pos).sequence && |v| == s.width
    case PushCopy(v, pos, copied) =>
      && pos < s.enq && v == s.log[pos] && copied <= s.width && |v| == s.width
      && CellAt(s, pos).ticket == pos && CellAt(s, pos).sequence == pos
      && |CellAt(s, pos).data| == s.width && CellAt(s, pos).data[..copied] == v[..copied]
    case Pushed(v, pos) => pos < s.enq && v == s.log[pos]
    case PopAt(pos) => pos <= s.deq
    case PopTry(pos) => pos <= s.deq && pos + 1 <= CellAt(s, pos).sequence
    case PopCopy(pos, buf) =>
      && pos < s.deq && pos < s.enq && |buf| <= s.width && |s.log[pos]| == s.width
      && buf == s.log[pos][..|buf|]
      && CellAt(s, pos).ticket == pos && CellAt(s, pos).sequence == pos + 1
    case Popped(pos, value) => pos in s.received && s.received[pos] == value
    case _ => true
  }

  ghost predicate Inv(s: Ring) {
    && Shape(s) && s.size >= 2
    && s.enq == |s.log| && s.deq <= s.enq <= s.deq + s.size
    && (forall k :: 0 <= k < |s.log| ==> |s.log[k]| == s.width)
    && (forall i :: 0 <= i < s.size ==> CellOk(s, i))
    && (forall t :: 0 <= t < |s.threads| ==> ThreadOk(s, t))
    && (forall t, u :: 0 <= t < u < |s.threads| && s.threads[t].PushCopy? && s.threads[u].PushCopy? ==>
          s.threads[t].pos != s.threads[u].pos)
    && (forall t, u :: 0 <= t < u < |s.threads| && s.threads[t].PopCopy? && s.threads[u].PopCopy? ==>
          s.threads[t].pos != s.threads[u].pos)
    && (forall k: nat :: k in s.received <==> k < CellAt(s, k).ticket)
    && (forall k: nat :: k in s.received ==> k < s.deq && s.received[k] == s.log[k])
  }

  /** The claims on slot i survive a step of thread t that is not their holder's last. */
  lemma KeepClaims(s: Ring, t: nat, r: Ring, i: nat)
    requires Shape(s) && s.enq == |s.log| && i < s.size && CellOk(s, i)
    requires t < |s.threads| && |r.threads| == |s.threads|
    requires forall u :: 0 <= u < |s.threads| && u != t ==> r.threads[u] == s.threads[u]
    requires forall k: nat :: k == s.cells[i].ticket ==> (Pushing(s, t, k) ==> Pushing(r, t, k))
    requires forall k: nat :: k == s.cells[i].ticket ==> (Popping(s, t, k) ==> Popping(r, t, k))
    ensures var c := s.cells[i];
            && (c.sequence == c.ticket && c.ticket < s.enq ==> exists u: nat :: Pushing(r, u, c.ticket))
            && (c.sequence == c.ticket + 1 && c.ticket < s.deq ==> exists u: nat :: Popping(r, u, c.ticket))
  {
    var c := s.cells[i];
    if c.sequence == c.ticket && c.ticket < s.enq {
      var u: nat :| Pushing(s, u, c.ticket);
      assert Pushing(r, u, c.ticket);
    }
    if c.sequence == c.ticket + 1 && c.ticket < s.deq {
      var u: nat :| Popping(s, u, c.ticket);
      assert Popping(r, u, c.ticket);
    }
  }

  lemma InitInv(s: Ring)
    requires Init(s) && s.size >= 2
    ensures Inv(s)
  {
    hide Slot;
    SlotsInRange(s.size);
    forall k: nat | k < s.size ensures Slot(k, s.size) == k {
      SlotFacts(k, k, s.size);
    }
    forall k: nat ensures !(k < CellAt(s, k).ticket) {
      SlotFacts(k, k, s.size);
      var i := Slot(k, s.size);
      SlotFacts(i, k, s.size);
      SlotFacts(k, i, s.size);
    }
  }

  /** A thread changes its own state only, and holds no slot before or after. */
  lemma LocalStep(s: Ring, t: nat, pc: Pc)
    requires Inv(s) && t < |s.threads|
    requires !s.threads[t].PushCopy? && !s.threads[t].PopCopy? && !pc.PushCopy? && !pc.PopCopy?
    requires ThreadOk(SetPc(s, t, pc), t)
    ensures Inv(SetPc(s, t, pc))
  {
    hide Slot;
    SlotsInRange(s.size);
    var r := SetPc(s, t, pc);
    forall i | 0 <= i < s.size ensures CellOk(r, i) {
      var c := s.cells[i];
      assert CellOk(s, i);
      KeepClaims(s, t, r, i);
    }
    forall u | 0 <= u < |r.threads| ensures ThreadOk(r, u) {
      assert ThreadOk(s, u);
    }
    forall k: nat ensures CellAt(r, k) == CellAt(s, k) {
    }
  }

  /** What the slot of a pushing thread's position holds, against the current positions. */
  lemma PushSight(s: Ring, pos: nat)
    requires Inv(s) && pos <= s.enq
    ensures pos < s.enq ==> pos <= CellAt(s, pos).sequence
    ensures pos == s.enq && pos <= CellAt(s, pos).sequence ==>
              CellAt(s, pos).sequence == pos && CellAt(s, pos).ticket == pos
    ensures CellAt(s, pos).sequence > pos ==> pos < s.enq
    ensures CellAt(s, pos).sequence < pos <==>
              pos == s.enq && pos >= s.size && pos - s.size !in s.received
  {
    hide Slot;
    SlotsInRange(s.size);
    SlotFacts(pos, pos, s.size);
    var i := Slot(pos, s.size);
    var c := s.cells[i];
    assert CellOk(s, i);
    SlotFacts(c.ticket, pos, s.size);
    SlotFacts(pos, c.ticket, s.size);
    if pos >= s.size {
      SlotFacts(pos - s.size, pos, s.size);
      assert CellAt(s, pos - s.size) == c;
    }
  }

  /** The same for a popping thread. */
  lemma PopSight(s: Ring, pos: nat)
    requires Inv(s) && pos <= s.deq
    ensures pos < s.deq ==> pos + 1 <= CellAt(s, pos).sequence
    ensures pos == s.deq && pos + 1 <= CellAt(s, pos).sequence ==>
              CellAt(s, pos).sequence == pos + 1 && CellAt(s, pos).ticket == pos && pos < s.enq
    ensures CellAt(s, pos).sequence > pos + 1 ==> pos < s.deq
    ensures CellAt(s, pos).sequence < pos + 1 <==>
              pos == s.deq && (pos == s.enq || exists t: nat :: Pushing(s, t, pos))
  {
    hide Slot;
    SlotsInRange(s.size);
    SlotFacts(pos, pos, s.size);
    var i := Slot(pos, s.size);
    var c := s.cells[i];
    assert CellOk(s, i);
    SlotFacts(c.ticket, pos, s.size);
    SlotFacts(pos, c.ticket, s.size);
    if t: nat :| Pushing(s, t, pos) {
      assert ThreadOk(s, t);
    }
  }

  /** No two slots share a claimed ticket. */
  lemma OtherSlot(s: Ring, i: nat, j: nat)
    requires Inv(s) && i < s.size && j < s.size && i != j
    ensures s.cells[i].ticket != s.cells[j].ticket
  {
    hide Slot;
    SlotsInRange(s.size);
    assert CellOk(s, i) && CellOk(s, j);
  }

  lemma WinPush(s: Ring, t: nat)
    requires Inv(s) && t < |s.threads| && s.threads[t].PushTry? && s.threads[t].pos == s.enq
    ensures Inv(Step(s, t, Cas(false)))
  {
    hide Slot;
    SlotsInRange(s.size);
    var r := Step(s, t, Cas(false));
    assert ThreadOk(s, t);
    PushSight(s, s.enq);
    WinPushCells(s, t);
    WinPushThreads(s, t);
    hide CellOk;
    assert forall u | 0 <= u < |s.threads| && s.threads[u].PushCopy? :: ThreadOk(s, u);
    forall k: nat ensures CellAt(r, k) == CellAt(s, k) {
    }
  }

  lemma WinPushCells(s: Ring, t: nat)
    requires Inv(s) && t < |s.threads| && s.threads[t].PushTry? && s.threads[t].pos == s.enq
    ensures var r := Step(s, t, Cas(false));
            r.enq == |r.log| && forall i :: 0 <= i < s.size ==> CellOk(r, i)
  {
    hide Slot;
    SlotsInRange(s.size);
    var v, pos := s.threads[t].v, s.enq;
    var r := Step(s, t, Cas(false));
    assert ThreadOk(s, t);
    PushSight(s, pos);
    hide ThreadOk;
    var h := Slot(pos, s.size);
    SlotFacts(pos, pos, s.size);
    forall i | 0 <= i < s.size ensures CellOk(r, i) {
      var c := s.cells[i];
      assert CellOk(s, i);
      if i == h {
        assert c.ticket == pos && c.sequence == pos;
        assert Pushing(r, t, pos);
      } else {
        SlotFacts(c.ticket, pos, s.size);
        SlotFacts(pos, c.ticket, s.size);
        assert c.ticket != pos;
        if s.enq == c.ticket + s.size {
          SlotFacts(c.ticket, c.ticket, s.size);
        }
        KeepClaims(s, t, r, i);
      }
    }
  }

  lemma WinPushThreads(s: Ring, t: nat)
    requires Inv(s) && t < |s.threads| && s.threads[t].PushTry? && s.threads[t].pos == s.enq
    ensures var r := Step(s, t, Cas(false));
            r.enq == |r.log| && forall u :: 0 <= u < |r.threads| ==> ThreadOk(r, u)
  {
    hide Slot;
    SlotsInRange(s.size);
    var v, pos := s.threads[t].v, s.enq;
    var r := Step(s, t, Cas(false));
    assert ThreadOk(s, t);
    PushSight(s, pos);
    assert CellOk(s, Slot(pos, s.size));
    hide CellOk;
    assert ThreadOk(r, t) by {
      assert CellAt(r, pos).data[..0] == v[..0];
    }
    forall u | 0 <= u < |r.threads| && u != t ensures ThreadOk(r, u) {
      assert ThreadOk(s, u);
    }
  }

  lemma WinPop(s: Ring, t: nat)
    requires Inv(s) && t < |s.threads| && s.threads[t].PopTry? && s.threads[t].pos == s.deq
    ensures Inv(Step(s, t, Cas(false)))
  {
    hide Slot;
    SlotsInRange(s.size);
    var r := Step(s, t, Cas(false));
    assert ThreadOk(s, t);
    PopSight(s, s.deq);
    WinPopCells(s, t);
    WinPopThreads(s, t);
    hide CellOk;
    assert forall u | 0 <= u < |s.threads| && s.threads[u].PopCopy? :: ThreadOk(s, u);
    forall k: nat ensures CellAt(r, k) == CellAt(s, k) {
    }
  }

  lemma WinPopCells(s: Ring, t: nat)
    requires Inv(s) && t < |s.threads| && s.threads[t].PopTry? && s.threads[t].pos == s.deq
    ensures var r := Step(s, t, Cas(false));
            forall i :: 0 <= i < s.size ==> CellOk(r, i)
  {
    hide Slot;
    SlotsInRange(s.size);
    var pos := s.deq;
    var r := Step(s, t, Cas(false));
    assert ThreadOk(s, t);
    PopSight(s, pos);
    hide ThreadOk;
    var h := Slot(pos, s.size);
    SlotFacts(pos, pos, s.size);
    forall i | 0 <= i < s.size ensures CellOk(r, i) {
      assert CellOk(s, i);
      if i == h {
        assert Popping(r, t, pos);
      } else {
        OtherSlot(s, i, h);
        KeepClaims(s, t, r, i);
      }
    }
  }

  lemma WinPopThreads(s: Ring, t: nat)
    requires Inv(s) && t < |s.threads| && s.threads[t].PopTry? && s.threads[t].pos == s.deq
    ensures var r := Step(s, t, Cas(false));
            forall u :: 0 <= u < |r.threads| ==> ThreadOk(r, u)
  {
    hide Slot;
    SlotsInRange(s.size);
    var pos := s.deq;
    var r := Step(s, t, Cas(false));
    assert ThreadOk(s, t);
    PopSight(s, pos);
    assert CellOk(s, Slot(pos, s.size));
    hide CellOk;
    forall u | 0 <= u < |r.threads| ensures ThreadOk(r, u) {
      assert ThreadOk(s, u);
    }
  }

  /** Between its winning compare and swap and its publication a thread has its slot to itself. */
  lemma SlotIsExclusive(s: Ring, t: nat, u: nat)
    requires Inv(s) && t < |s.threads| && u < |s.threads| && t != u
    requires s.threads[t].PushCopy? || s.threads[t].PopCopy?
    requires s.threads[u].PushCopy? || s.threads[u].PopCopy?
    ensures Slot(s.threads[t].pos, s.size) != Slot(s.threads[u].pos, s.size)
  {
    hide Slot;
    SlotsInRange(s.size);
    assert ThreadOk(s, t) && ThreadOk(s, u);
  }

  lemma CopyPush(s: Ring, t: nat)
    requires Inv(s) && t < |s.threads| && s.threads[t].PushCopy?
    ensures Inv(Step(s, t, CopyWord))
  {
    hide Slot;
    SlotsInRange(s.size);
    var r := Step(s, t, CopyWord);
    if s.threads[t].copied < s.width {
      CopyPushCells(s, t);
      CopyPushThreads(s, t);
      hide CellOk;
      hide ThreadOk;
      forall k: nat ensures CellAt(r, k).ticket == CellAt(s, k).ticket {
      }
    } else {
      assert ThreadOk(s, t);
    }
  }

  lemma CopyPushCells(s: Ring, t: nat)
    requires Inv(s) && t < |s.threads| && s.threads[t].PushCopy?
    ensures var r := Step(s, t, CopyWord);
            forall i :: 0 <= i < s.size ==> CellOk(r, i)
  {
    hide Slot;
    SlotsInRange(s.size);
    var r := Step(s, t, CopyWord);
    assert ThreadOk(s, t);
    hide ThreadOk;
    SlotFacts(s.threads[t].pos, s.threads[t].pos, s.size);
    forall i | 0 <= i < s.size ensures CellOk(r, i) {
      assert CellOk(s, i);
      KeepClaims(s, t, r, i);
    }
  }

  lemma CopyPushThreads(s: Ring, t: nat)
    requires Inv(s) && t < |s.threads| && s.threads[t].PushCopy?
    ensures var r := Step(s, t, CopyWord);
            forall u :: 0 <= u < |r.threads| ==> ThreadOk(r, u)
  {
    hide Slot;
    SlotsInRange(s.size);
    var r := Step(s, t, CopyWord);
    assert ThreadOk(s, t);
    hide CellOk;
    SlotFacts(s.threads[t].pos, s.threads[t].pos, s.size);
    forall u | 0 <= u < |r.threads| ensures ThreadOk(r, u) {
      assert ThreadOk(s, u);
      if u != t && (s.threads[u].PushCopy? || s.threads[u].PopCopy?) {
        SlotIsExclusive(s, t, u);
      }
    }
  }

  lemma CopyPop(s: Ring, t: nat)
    requires Inv(s) && t < |s.threads| && s.threads[t].PopCopy?
    ensures Inv(Step(s, t, CopyWord))
  {
    hide Slot;
    SlotsInRange(s.size);
    var r := Step(s, t, CopyWord);
    CopyPopCells(s, t);
    CopyPopThreads(s, t);
    hide CellOk;
    hide ThreadOk;
    forall k: nat ensures CellAt(r, k) == CellAt(s, k) {
    }
  }

  lemma CopyPopCells(s: Ring, t: nat)
    requires Inv(s) && t < |s.threads| && s.threads[t].PopCopy?
    ensures var r := Step(s, t, CopyWord);
            forall i :: 0 <= i < s.size ==> CellOk(r, i)
  {
    hide Slot;
    SlotsInRange(s.size);
    hide ThreadOk;
    var r := Step(s, t, CopyWord);
    forall i | 0 <= i < s.size ensures CellOk(r, i) {
      assert CellOk(s, i);
      KeepClaims(s, t, r, i);
    }
  }

  lemma CopyPopThreads(s: Ring, t: nat)
    requires Inv(s) && t < |s.threads| && s.threads[t].PopCopy?
    ensures var r := Step(s, t, CopyWord);
            forall u :: 0 <= u < |r.threads| ==> ThreadOk(r, u)
  {
    hide Slot;
    SlotsInRange(s.size);
    var pos := s.threads[t].pos;
    var r := Step(s, t, CopyWord);
    assert ThreadOk(s, t);
    assert CellOk(s, Slot(pos, s.size));
    hide CellOk;
    forall u | 0 <= u < |r.threads| ensures ThreadOk(r, u) {
      assert ThreadOk(s, u);
    }
  }

  lemma PublishPush(s: Ring, t: nat)
    requires Inv(s) && t < |s.threads| && s.threads[t].PushCopy?
    ensures Inv(Step(s, t, Publish))
  {
    hide Slot;
    SlotsInRange(s.size);
    var r := Step(s, t, Publish);
    if s.threads[t].copied == |s.threads[t].v| {
      PublishPushCells(s, t);
      PublishPushThreads(s, t);
      hide CellOk;
      hide ThreadOk;
      forall k: nat ensures CellAt(r, k).ticket == CellAt(s, k).ticket {
      }
    }
  }

  lemma PublishPushCells(s: Ring, t: nat)
    requires Inv(s) && t < |s.threads| && s.threads[t].PushCopy? && s.threads[t].copied == |s.threads[t].v|
    ensures var r := Step(s, t, Publish);
            forall i :: 0 <= i < s.size ==> CellOk(r, i)
  {
    hide Slot;
    SlotsInRange(s.size);
    var pc := s.threads[t];
    var r := Step(s, t, Publish);
    assert ThreadOk(s, t);
    hide ThreadOk;
    var h := Slot(pc.pos, s.size);
    SlotFacts(pc.pos, pc.pos, s.size);
    forall i | 0 <= i < s.size ensures CellOk(r, i) {
      var c := s.cells[i];
      assert CellOk(s, i);
      if i == h {
        assert c.data == c.data[..s.width] && pc.v == pc.v[..s.width];
      } else {
        OtherSlot(s, i, h);
        KeepClaims(s, t, r, i);
      }
    }
  }

  lemma PublishPushThreads(s: Ring, t: nat)
    requires Inv(s) && t < |s.threads| && s.threads[t].PushCopy? && s.threads[t].copied == |s.threads[t].v|
    ensures var r := Step(s, t, Publish);
            forall u :: 0 <= u < |r.threads| ==> ThreadOk(r, u)
  {
    hide Slot;
    SlotsInRange(s.size);
    var r := Step(s, t, Publish);
    assert ThreadOk(s, t);
    hide CellOk;
    forall u | 0 <= u < |r.threads| ensures ThreadOk(r, u) {
      assert ThreadOk(s, u);
      if u != t && (s.threads[u].PushCopy? || s.threads[u].PopCopy?) {
        SlotIsExclusive(s, t, u);
      }
    }
  }

  lemma PublishPop(s: Ring, t: nat)
    requires Inv(s) && t < |s.threads| && s.threads[t].PopCopy?
    ensures Inv(Step(s, t, Publish))
  {
    hide Slot;
    var r := Step(s, t, Publish);
    if |s.threads[t].buf| == s.width {
      PublishPopCells(s, t);
      PublishPopThreads(s, t);
      PublishPopReceived(s, t);
    }
  }

  lemma PublishPopCells(s: Ring, t: nat)
    requires Inv(s) && t < |s.threads| && s.threads[t].PopCopy? && |s.threads[t].buf| == s.width
    ensures var r := Step(s, t, Publish);
            forall i :: 0 <= i < s.size ==> CellOk(r, i)
  {
    hide Slot;
    SlotsInRange(s.size);
    var pos := s.threads[t].pos;
    var r := Step(s, t, Publish);
    assert ThreadOk(s, t);
    var h := Slot(pos, s.size);
    SlotFacts(pos, pos, s.size);
    forall i | 0 <= i < s.size ensures CellOk(r, i) {
      assert CellOk(s, i);
      if i != h {
        OtherSlot(s, i, h);
        KeepClaims(s, t, r, i);
      }
    }
  }

  lemma PublishPopThreads(s: Ring, t: nat)
    requires Inv(s) && t < |s.threads| && s.threads[t].PopCopy? && |s.threads[t].buf| == s.width
    ensures var r := Step(s, t, Publish);
            forall u :: 0 <= u < |r.threads| ==> ThreadOk(r, u)
  {
    hide Slot;
    SlotsInRange(s.size);
    var r := Step(s, t, Publish);
    assert ThreadOk(s, t);
    var pos := s.threads[t].pos;
    assert pos !in s.received by {
      assert pos in s.received <==> pos < CellAt(s, pos).ticket;
    }
    forall u | 0 <= u < |r.threads| ensures ThreadOk(r, u) {
      assert ThreadOk(s, u);
      if u != t && (s.threads[u].PushCopy? || s.threads[u].PopCopy?) {
        SlotIsExclusive(s, t, u);
      }
    }
  }

  lemma PublishPopReceived(s: Ring, t: nat)
    requires Inv(s) && t < |s.threads| && s.threads[t].PopCopy? && |s.threads[t].buf| == s.width
    ensures var r := Step(s, t, Publish);
            && (forall k: nat :: k in r.received <==> k < CellAt(r, k).ticket)
            && (forall k: nat :: k in r.received ==> k < r.deq && r.received[k] == r.log[k])
  {
    hide Slot;
    SlotsInRange(s.size);
    var r := Step(s, t, Publish);
    assert ThreadOk(s, t);
    var pos := s.threads[t].pos;
    assert s.threads[t].buf == s.log[pos];
    forall k: nat ensures k in r.received <==> k < CellAt(r, k).ticket {
      assert k in s.received <==> k < CellAt(s, k).ticket;
      if Slot(k, s.size) == Slot(pos, s.size) {
        SlotFacts(k, pos, s.size);
        SlotFacts(pos, k, s.size);
      }
    }
  }

  lemma LocalPush(s: Ring, t: nat, e: Event)
    requires Inv(s) && t < |s.threads|
    requires s.threads[t].PushAt? || s.threads[t].PushReload?
    ensures Inv(Step(s, t, e))
  {
    hide Slot;
    hide Inv;
    LocalFacts(s, t);
    match (s.threads[t], e)
    case (PushAt(v, pos), LoadSequence) =>
      var seen := CellAt(s, pos).sequence;
      LocalStep(s, t, if seen == pos then PushTry(v, pos) else if seen < pos then PushFull(v, pos) else PushReload(v));
    case (PushReload(v), ReloadPosition) =>
      LocalStep(s, t, PushAt(v, s.enq));
    case _ =>
  }

  lemma LocalPop(s: Ring, t: nat, e: Event)
    requires Inv(s) && t < |s.threads|
    requires s.threads[t].PopAt? || s.threads[t].PopReload?
    ensures Inv(Step(s, t, e))
  {
    hide Slot;
    hide Inv;
    LocalFacts(s, t);
    match (s.threads[t], e)
    case (PopAt(pos), LoadSequence) =>
      var seen := CellAt(s, pos).sequence;
      LocalStep(s, t, if seen == pos + 1 then PopTry(pos) else if seen < pos + 1 then PopEmpty(pos) else PopReload);
    case (PopReload, ReloadPosition) =>
      LocalStep(s, t, PopAt(s.deq));
    case _ =>
  }

  lemma LocalCall(s: Ring, t: nat, e: Event)
    requires Inv(s) && t < |s.threads|
    requires s.threads[t].Idle? || s.threads[t].PushFull? || s.threads[t].Pushed?
          || s.threads[t].PopEmpty? || s.threads[t].Popped?
    ensures Inv(Step(s, t, e))
  {
    hide Slot;
    hide Inv;
    LocalFacts(s, t);
    match (s.threads[t], e)
    case (Idle, CallPush(v)) =>
      if |v| == s.width { LocalStep(s, t, PushAt(v, s.enq)); }
    case (Idle, CallPop) =>
      LocalStep(s, t, PopAt(s.deq));
    case (Idle, _) =>
    case (_, Return) =>
      LocalStep(s, t, Idle);
    case _ =>
  }

  lemma LocalFacts(s: Ring, t: nat)
    requires Inv(s) && t < |s.threads|
    ensures Shape(s) && s.enq == |s.log| && ThreadOk(s, t)
  {
  }

  lemma StepCas(s: Ring, t: nat, spurious: bool)
    requires Inv(s) && t < |s.threads| && (s.threads[t].PushTry? || s.threads[t].PopTry?)
    ensures Inv(Step(s, t, Cas(spurious)))
  {
    hide Slot;
    hide Inv;
    LocalFacts(s, t);
    match s.threads[t]
    case PushTry(v, pos) =>
      if s.enq == pos && !spurious { WinPush(s, t); } else { LocalStep(s, t, PushAt(v, s.enq)); }
    case PopTry(pos) =>
      if s.deq == pos && !spurious { WinPop(s, t); } else { LocalStep(s, t, PopAt(s.deq)); }
  }

  /** Every step of every thread keeps the invariant. */
  lemma InvStep(s: Ring, t: nat, e: Event)
    requires Inv(s) && t < |s.threads|
    ensures Inv(Step(s, t, e))
  {
    hide Slot;
    hide Inv;
    match s.threads[t]
    case PushAt(_, _) => LocalPush(s, t, e);
    case PushReload(_) => LocalPush(s, t, e);
    case PopAt(_) => LocalPop(s, t, e);
    case PopReload => LocalPop(s, t, e);
    case PushCopy(_, _, _) =>
      if e == CopyWord { CopyPush(s, t); } else if e == Publish { PublishPush(s, t); }
    case PopCopy(_, _) =>
      if e == CopyWord { CopyPop(s, t); } else if e == Publish { PublishPop(s, t); }
    case PushTry(_, _) => if e.Cas? { StepCas(s, t, e.spurious); }
    case PopTry(_) => if e.Cas? { StepCas(s, t, e.spurious); }
    case _ => LocalCall(s, t, e);
  }

  // ---------------------------------------------------------------- what holds on every run

  ghost predicate ValidTrace(s: Ring, trace: seq<(nat, Event)>) {
    forall k :: 0 <= k < |trace| ==> trace[k].0 < |s.threads|
  }

  lemma {:induction false} RunInv(s: Ring, trace: seq<(nat, Event)>)
    requires Init(s) && s.size >= 2 && ValidTrace(s, trace)
    ensures Inv(Run(s, trace))
    decreases |trace|
  {
    if trace == [] {
      InitInv(s);
    } else {
      var n := |trace| - 1;
      RunInv(s, trace[..n]);
      InvStep(Run(s, trace[..n]), trace[n].0, trace[n].1);
    }
  }

  /** Each pop has returned exactly what the push with its ticket handed in. */
  ghost predicate Faithful(s: Ring) {
    && (forall k :: k in s.received ==> k < |s.log| && s.received[k] == s.log[k])
    && (forall t :: 0 <= t < |s.threads| ==>
          match s.threads[t]
          case Pushed(v, pos) => pos < |s.log| && v == s.log[pos]
          case Popped(pos, value) => pos < |s.log| && value == s.log[pos]
          case _ => true)
  }

  /** A ticket below the dequeue position has been received, or exactly one thread is copying it out;
      one between the positions is in the ring; none is both. */
  ghost predicate EachTicketOnce(s: Ring) {
    && (forall k: nat :: k < s.deq ==> (k in s.received <==> !exists t: nat :: Popping(s, t, k)))
    && (forall k: nat :: k in s.received ==> k < s.deq)
    && (forall k: nat, t: nat, u: nat :: Popping(s, t, k) && Popping(s, u, k) ==> t == u)
    && (forall k: nat, t: nat, u: nat :: Pushing(s, t, k) && Pushing(s, u, k) ==> t == u)
    && s.deq <= s.enq <= s.deq + s.size && s.enq == |s.log|
  }

  lemma TicketsOnce(s: Ring)
    requires Inv(s)
    ensures EachTicketOnce(s)
  {
    hide Slot;
    SlotsInRange(s.size);
    forall k: nat | k < s.deq
      ensures k in s.received <==> !exists t: nat :: Popping(s, t, k)
    {
      var c := CellAt(s, k);
      assert CellOk(s, Slot(k, s.size));
      assert k in s.received <==> k < c.ticket;
      if t: nat :| Popping(s, t, k) {
        assert ThreadOk(s, t);
      }
      if k !in s.received {
        SlotFacts(c.ticket, k, s.size);
      }
    }
  }

  /** Safety of every interleaving of any number of threads. */
  lemma EveryRunSafe(s: Ring, trace: seq<(nat, Event)>)
    requires Init(s) && s.size >= 2 && ValidTrace(s, trace)
    ensures Faithful(Run(s, trace)) && EachTicketOnce(Run(s, trace))
  {
    hide Slot;
    RunInv(s, trace);
    var r := Run(s, trace);
    TicketsOnce(r);
    forall t | 0 <= t < |r.threads|
      ensures match r.threads[t]
              case Pushed(v, pos) => pos < |r.log| && v == r.log[pos]
              case Popped(pos, value) => pos < |r.log| && value == r.log[pos]
              case _ => true
    {
      assert ThreadOk(r, t);
    }
  }

  /** A slot's sequence number never decreases. */
  lemma SequencesNeverDecrease(s: Ring, t: nat, e: Event, i: nat)
    requires Inv(s) && t < |s.threads| && i < s.size
    ensures s.cells[i].sequence <= Step(s, t, e).cells[i].sequence
  {
    hide Slot;
    assert ThreadOk(s, t);
    SlotsInRange(s.size);
  }

  /** Push gives up exactly when its ticket is the next one and the pop that frees its slot is unfinished. */
  lemma PushRefusedExactlyWhen(s: Ring, t: nat)
    requires Inv(s) && t < |s.threads| && s.threads[t].PushAt?
    ensures var pos := s.threads[t].pos;
            && (Step(s, t, LoadSequence).threads[t].PushFull? <==>
                  pos == s.enq && pos >= s.size && pos - s.size !in s.received)
            && (Step(s, t, LoadSequence).threads[t].PushReload? ==> pos < s.enq)
  {
    hide Slot;
    assert ThreadOk(s, t);
    PushSight(s, s.threads[t].pos);
  }

  /** Pop gives up exactly when its ticket is the next one and the push that fills its slot is
      unfinished or not begun. */
  lemma PopRefusedExactlyWhen(s: Ring, t: nat)
    requires Inv(s) && t < |s.threads| && s.threads[t].PopAt?
    ensures var pos := s.threads[t].pos;
            && (Step(s, t, LoadSequence).threads[t].PopEmpty? <==>
                  pos == s.deq && (pos == s.enq || exists u: nat :: Pushing(s, u, pos)))
            && (Step(s, t, LoadSequence).threads[t].PopReload? ==> pos < s.deq)
  {
    hide Slot;
    assert ThreadOk(s, t);
    PopSight(s, s.threads[t].pos);
  }

  /** A lost compare and swap that is not spurious means another thread claimed the ticket. */
  lemma LostRaceMeansClaimed(s: Ring, t: nat)
    requires Inv(s) && t < |s.threads|
    ensures s.threads[t].PushTry? && !Step(s, t, Cas(false)).threads[t].PushCopy? ==> s.threads[t].pos < s.enq
    ensures s.threads[t].PopTry? && !Step(s, t, Cas(false)).threads[t].PopCopy? ==> s.threads[t].pos < s.deq
  {
    hide Slot;
    assert ThreadOk(s, t);
  }

  // ---------------------------------------------------------------- the ring is a bounded queue

  /** The abstract queue: entries claimed by a push and not yet claimed by a pop. */
  function Contents(s: Ring): (q: seq<Entry>)
    requires s.deq <= s.enq == |s.log|
  {
    s.log[s.deq..]
  }

  /** Every step is a step of an atomic queue: a winning push swap appends its entry, a winning pop
      swap removes the head and that head is what the pop will return, all else leaves the queue alone. */
  lemma StepIsQueueStep(s: Ring, t: nat, e: Event)
    requires Inv(s) && t < |s.threads|
    ensures var r := Step(s, t, e);
            && Inv(r) && |Contents(r)| <= s.size
            && (if s.threads[t].PushTry? && e == Cas(false) && s.threads[t].pos == s.enq then
                  Contents(r) == Contents(s) + [s.threads[t].v]
                else if s.threads[t].PopTry? && e == Cas(false) && s.threads[t].pos == s.deq then
                  && Contents(s) != [] && Contents(r) == Contents(s)[1..]
                  && r.log[s.threads[t].pos] == Contents(s)[0]
                else Contents(r) == Contents(s))
            && s.log <= r.log
  {
    hide Slot;
    hide CellOk;
    hide ThreadOk;
    hide Inv;
    hide Step;
    InvStep(s, t, e);
    QueueBounds(s);
    QueueBounds(Step(s, t, e));
    LogAfter(s, t, e);
    if s.threads[t].PopTry? && s.threads[t].pos == s.deq {
      HeadIsThere(s, t);
    }
    if s.threads[t].PushTry? && e == Cas(false) && s.threads[t].pos == s.enq {
      assert (s.log + [s.threads[t].v])[s.deq..] == s.log[s.deq..] + [s.threads[t].v];
    }
  }

  /** Only a winning swap changes the log or the positions. */
  lemma LogAfter(s: Ring, t: nat, e: Event)
    requires Shape(s) && t < |s.threads|
    ensures var r := Step(s, t, e);
            if s.threads[t].PushTry? && e == Cas(false) && s.threads[t].pos == s.enq then
              r.log == s.log + [s.threads[t].v] && r.deq == s.deq
            else if s.threads[t].PopTry? && e == Cas(false) && s.threads[t].pos == s.deq then
              r.log == s.log && r.deq == s.deq + 1
            else r.log == s.log && r.deq == s.deq
  {
    hide Slot;
  }

  lemma QueueBounds(s: Ring)
    requires Inv(s)
    ensures Shape(s) && s.enq == |s.log| && s.deq <= s.enq <= s.deq + s.size
  {
  }

  lemma HeadIsThere(s: Ring, t: nat)
    requires Inv(s) && t < |s.threads| && s.threads[t].PopTry? && s.threads[t].pos == s.deq
    ensures s.deq < s.enq
  {
    hide Slot;
    hide CellOk;
    assert ThreadOk(s, t);
    PopSight(s, s.deq);
  }

  // ---------------------------------------------------------------- a ring of one slot is not safe

  lemma RunSnoc(s: Ring, trace: seq<(nat, Event)>, t: nat, e: Event)
    requires Shape(s) && ValidTrace(s, trace) && t < |s.threads|
    ensures ValidTrace(s, trace + [(t, e)])
    ensures Run(s, trace + [(t, e)]) == Step(Run(s, trace), t, e)
  {
  }

  lemma {:induction false} RunAppend(s: Ring, a: seq<(nat, Event)>, b: seq<(nat, Event)>)
    requires Shape(s) && ValidTrace(s, a) && ValidTrace(s, b)
    ensures ValidTrace(s, a + b)
    ensures Run(s, a + b) == Run(Run(s, a), b)
    decreases |b|
  {
    hide Step;
    hide Shape;
    if b == [] {
      assert a + b == a;
    } else {
      var n := |b| - 1;
      RunAppend(s, a, b[..n]);
      assert (a + b)[..|a + b| - 1] == a + b[..n];
      assert (a + b)[|a + b| - 1] == b[n];
    }
  }

  function Copies(t: nat, n: nat): (trace: seq<(nat, Event)>) {
    seq(n, _ => (t, CopyWord))
  }

  /** Two-thread runs on one slot: the state is written out in full. */
  function OneSlot(s: Ring, c: Cell, enq: nat, deq: nat, pc0: Pc, pc1: Pc, log: seq<Entry>): Ring
    requires |s.threads| >= 2
  {
    s.(cells := [c], enq := enq, deq := deq, threads := s.threads[0 := pc0][1 := pc1], log := log)
  }

  lemma {:induction false} CopyIn(s: Ring, c: Cell, enq: nat, deq: nat, pc1: Pc, log: seq<Entry>, v: Entry, pos: nat,
    n: nat)
    requires GoodSize(s.size) && s.size == 1 && |s.threads| >= 2
    requires n <= |v| == |c.data|
    ensures var b := OneSlot(s, c, enq, deq, PushCopy(v, pos, 0), pc1, log);
            && ValidTrace(b, Copies(0, n))
            && Run(b, Copies(0, n)) ==
               OneSlot(s, c.(data := v[..n] + c.data[n..]), enq, deq, PushCopy(v, pos, n), pc1, log)
  {
    hide Slot;
    hide Step;
    if n == 0 {
      assert v[..0] + c.data[0..] == c.data;
    } else {
      CopyIn(s, c, enq, deq, pc1, log, v, pos, n - 1);
      assert Copies(0, n)[..n - 1] == Copies(0, n - 1);
      CopyOneIn(s, c.(data := v[..n - 1] + c.data[n - 1..]), enq, deq, pc1, log, v, pos, n - 1);
      PartCopied(v, c.data, n - 1);
    }
  }

  lemma PartCopied(v: Entry, d: Entry, k: nat)
    requires k < |v| == |d|
    ensures |v[..k] + d[k..]| == |d| && (v[..k] + d[k..])[k := v[k]] == v[..k + 1] + d[k + 1..]
  {
  }

  lemma CopyOneIn(s: Ring, c: Cell, enq: nat, deq: nat, pc1: Pc, log: seq<Entry>, v: Entry, pos: nat, k: nat)
    requires GoodSize(s.size) && s.size == 1 && |s.threads| >= 2 && k < |v| == |c.data|
    ensures Step(OneSlot(s, c, enq, deq, PushCopy(v, pos, k), pc1, log), 0, CopyWord)
              == OneSlot(s, c.(data := c.data[k := v[k]]), enq, deq, PushCopy(v, pos, k + 1), pc1, log)
  {
    hide Slot;
    SlotFacts(pos, pos, 1);
    var q := Step(OneSlot(s, c, enq, deq, PushCopy(v, pos, k), pc1, log), 0, CopyWord);
    assert q.threads == s.threads[0 := PushCopy(v, pos, k + 1)][1 := pc1];
  }

  lemma {:induction false} CopyOut(s: Ring, c: Cell, enq: nat, deq: nat, pc0: Pc, log: seq<Entry>, pos: nat, n: nat)
    requires GoodSize(s.size) && s.size == 1 && |s.threads| >= 2
    requires n <= |c.data|
    ensures var b := OneSlot(s, c, enq, deq, pc0, PopCopy(pos, []), log);
            && ValidTrace(b, Copies(1, n))
            && Run(b, Copies(1, n)) == OneSlot(s, c, enq, deq, pc0, PopCopy(pos, c.data[..n]), log)
  {
    hide Slot;
    var b := OneSlot(s, c, enq, deq, pc0, PopCopy(pos, []), log);
    if n == 0 {
      assert c.data[..0] == [];
    } else {
      CopyOut(s, c, enq, deq, pc0, log, pos, n - 1);
      assert Copies(1, n)[..n - 1] == Copies(1, n - 1);
      SlotFacts(pos, pos, 1);
      assert c.data[..n - 1] + [c.data[n - 1]] == c.data[..n];
      var p := Run(b, Copies(1, n - 1));
      var q := Step(p, 1, CopyWord);
      assert q.threads == s.threads[0 := pc0][1 := PopCopy(pos, c.data[..n])];
    }
  }

  lemma RunThree(s: Ring, trace: seq<(nat, Event)>)
    requires Shape(s) && |trace| == 3 && ValidTrace(s, trace)
    ensures var s1 := Step(s, trace[0].0, trace[0].1);
            var s2 := Step(s1, trace[1].0, trace[1].1);
            Run(s, trace) == Step(s2, trace[2].0, trace[2].1)
  {
    assert trace[..2][..1] == trace[..1];
    assert trace[..1][..0] == [];
    assert Run(s, trace[..1]) == Step(s, trace[0].0, trace[0].1);
    assert Run(s, trace[..2]) == Step(Run(s, trace[..1]), trace[1].0, trace[1].1);
  }

  ghost predicate OneSlotStart(s: Ring, a: Entry) {
    Init(s) && s.size == 1 && |s.threads| >= 2 && |a| == s.width
  }

  lemma FirstClaim(s: Ring, a: Entry)
    requires OneSlotStart(s, a)
    ensures Run(s, [(0, CallPush(a)), (0, LoadSequence), (0, Cas(false))]) ==
            OneSlot(s, s.cells[0], 1, 0, PushCopy(a, 0, 0), Idle, [a])
  {
    hide Slot;
    SlotsInRange(1);
    RunThree(s, [(0, CallPush(a)), (0, LoadSequence), (0, Cas(false))]);
    var s1 := Step(s, 0, CallPush(a));
    assert s1 == SetPc(s, 0, PushAt(a, 0));
    var s2 := Step(s1, 0, LoadSequence);
    assert s2.threads == s.threads[0 := PushTry(a, 0)];
    assert s.threads[0 := PushCopy(a, 0, 0)][1 := Idle] == s.threads[0 := PushCopy(a, 0, 0)];
    assert [s.cells[0]] == s.cells;
  }

  lemma FirstPublish(s: Ring, a: Entry)
    requires OneSlotStart(s, a)
    ensures Run(OneSlot(s, Cell(0, a, 0), 1, 0, PushCopy(a, 0, s.width), Idle, [a]),
                [(0, Publish), (0, Return), (1, CallPop)]) ==
            OneSlot(s, Cell(1, a, 0), 1, 0, Idle, PopAt(0), [a])
  {
    hide Slot;
    SlotsInRange(1);
    var s0 := OneSlot(s, Cell(0, a, 0), 1, 0, PushCopy(a, 0, s.width), Idle, [a]);
    RunThree(s0, [(0, Publish), (0, Return), (1, CallPop)]);
    var s1 := Step(s0, 0, Publish);
    assert s1.threads == s.threads[0 := Pushed(a, 0)][1 := Idle];
    assert s1.cells == [Cell(1, a, 0)];
    var s2 := Step(s1, 0, Return);
    assert s2.threads == s.threads[0 := Idle][1 := Idle];
    var s3 := Step(s2, 1, CallPop);
    assert s3.threads == s.threads[0 := Idle][1 := PopAt(0)];
  }

  lemma SecondPush(s: Ring, a: Entry, b: Entry)
    requires OneSlotStart(s, a) && |b| == s.width
    ensures Run(OneSlot(s, Cell(1, a, 0), 1, 0, Idle, PopAt(0), [a]),
                [(1, LoadSequence), (0, CallPush(b)), (0, LoadSequence)]) ==
            OneSlot(s, Cell(1, a, 0), 1, 0, PushTry(b, 1), PopTry(0), [a])
  {
    hide Slot;
    SlotsInRange(1);
    var s0 := OneSlot(s, Cell(1, a, 0), 1, 0, Idle, PopAt(0), [a]);
    RunThree(s0, [(1, LoadSequence), (0, CallPush(b)), (0, LoadSequence)]);
    var s1 := Step(s0, 1, LoadSequence);
    assert s1.threads == s.threads[0 := Idle][1 := PopTry(0)];
    var s2 := Step(s1, 0, CallPush(b));
    assert s2.threads == s.threads[0 := PushAt(b, 1)][1 := PopTry(0)];
    var s3 := Step(s2, 0, LoadSequence);
    assert s3.threads == s.threads[0 := PushTry(b, 1)][1 := PopTry(0)];
  }

  /** Both swaps succeed: the push of b and the pop of ticket 0 hold the same slot. */
  lemma BothClaim(s: Ring, a: Entry, b: Entry)
    requires OneSlotStart(s, a) && |b| == s.width
    ensures var s0 := OneSlot(s, Cell(1, a, 0), 1, 0, PushTry(b, 1), PopTry(0), [a]);
            Step(s0, 0, Cas(false)) == OneSlot(s, Cell(1, a, 0), 2, 0, PushCopy(b, 1, 0), PopTry(0), [a, b])
    ensures var s1 := OneSlot(s, Cell(1, b, 0), 2, 0, PushCopy(b, 1, s.width), PopTry(0), [a, b]);
            Step(s1, 1, Cas(false)) ==
            OneSlot(s, Cell(1, b, 0), 2, 1, PushCopy(b, 1, s.width), PopCopy(0, []), [a, b])
  {
  }

  /** Thread 0 pushes a, thread 1 reads the matching sequence number, thread 0 starts to push b. */
  lemma FirstHalf(s: Ring, a: Entry, b: Entry) returns (trace: seq<(nat, Event)>)
    requires OneSlotStart(s, a) && |b| == s.width
    ensures ValidTrace(s, trace)
    ensures Run(s, trace) == OneSlot(s, Cell(1, a, 0), 2, 0, PushCopy(b, 1, 0), PopTry(0), [a, b])
  {
    hide Slot;
    hide Step;
    var w, c := s.width, s.cells[0];
    var t1 := [(0, CallPush(a)), (0, LoadSequence), (0, Cas(false))];
    FirstClaim(s, a);
    CopyIn(s, c, 1, 0, Idle, [a], a, 0, w);
    assert a[..w] + c.data[w..] == a;
    RunAppend(s, t1, Copies(0, w));
    var t2 := t1 + Copies(0, w);
    assert Run(s, t2) == OneSlot(s, Cell(0, a, 0), 1, 0, PushCopy(a, 0, w), Idle, [a]);
    var t3 := [(0, Publish), (0, Return), (1, CallPop)];
    FirstPublish(s, a);
    RunAppend(s, t2, t3);
    var t4 := [(1, LoadSequence), (0, CallPush(b)), (0, LoadSequence)];
    SecondPush(s, a, b);
    RunAppend(s, t2 + t3, t4);
    RunSnoc(s, t2 + t3 + t4, 0, Cas(false));
    BothClaim(s, a, b);
    trace := t2 + t3 + t4 + [(0, Cas(false))];
  }

  /** Thread 1 copies out the slot after thread 0 has overwritten it. */
  lemma SecondHalf(s: Ring, a: Entry, b: Entry) returns (trace: seq<(nat, Event)>)
    requires OneSlotStart(s, a) && |b| == s.width
    ensures ValidTrace(s, trace)
    ensures Run(s, trace) ==
            OneSlot(s, Cell(1, b, 0), 2, 1, PushCopy(b, 1, s.width), PopCopy(0, b), [a, b])
  {
    hide Slot;
    hide Step;
    var w := s.width;
    var t1 := FirstHalf(s, a, b);
    CopyIn(s, Cell(1, a, 0), 2, 0, PopTry(0), [a, b], b, 1, w);
    assert b[..w] + a[w..] == b;
    RunAppend(s, t1, Copies(0, w));
    var t2 := t1 + Copies(0, w);
    RunSnoc(s, t2, 1, Cas(false));
    BothClaim(s, a, b);
    var t3 := t2 + [(1, Cas(false))];
    CopyOut(s, Cell(1, b, 0), 2, 1, PushCopy(b, 1, w), [a, b], 0, w);
    assert b[..w] == b;
    RunAppend(s, t3, Copies(1, w));
    trace := t3 + Copies(1, w);
  }

  /** With one slot, "filled" and "free for the next ticket" are the same number, and a run of two
      threads makes the pop of ticket 0 return the entry pushed with ticket 1. */
  lemma OneSlotIsUnsafe(s: Ring, a: Entry, b: Entry) returns (trace: seq<(nat, Event)>)
    requires OneSlotStart(s, a) && |b| == s.width && a != b
    ensures ValidTrace(s, trace)
    ensures var r := Run(s, trace);
            && 0 in r.received && r.received[0] == b
            && r.log == [a, b] && !Faithful(r)
  {
    hide Slot;
    var t1 := SecondHalf(s, a, b);
    RunSnoc(s, t1, 1, Publish);
    trace := t1 + [(1, Publish)];
  }

  /** The ring is safe on all runs exactly when it has at least two slots. */
  lemma SafeExactlyFromTwoSlots(s: Ring)
    requires Init(s) && |s.threads| >= 2 && s.width >= 1
    ensures (forall trace | ValidTrace(s, trace) :: Faithful(Run(s, trace))) <==> s.size >= 2
  {
    if s.size >= 2 {
      forall trace | ValidTrace(s, trace) ensures Faithful(Run(s, trace)) {
        EveryRunSafe(s, trace);
      }
    } else {
      var a, b := seq(s.width, _ => 0), seq(s.width, _ => 1);
      assert a[0] != b[0];
      var trace := OneSlotIsUnsafe(s, a, b);
    }
  }
}
