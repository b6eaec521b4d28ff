/** The ring of one slot: not safe in general, but safe when pushes are never begun over an unfinished
    operation, which is how a single client uses it. */
module OneSlotRing {
  import opened MpmcRing

  /** A thread between the call of Push and its publication. */
  predicate InPush(pc: Pc) {
    pc.PushAt? || pc.PushReload? || pc.PushTry? || pc.PushCopy?
  }

  predicate Active(pc: Pc) {
    InPush(pc) || pc.PopCopy?
  }

  /** The ring is empty, no push has begun, and every pop that won its ticket has published. */
  ghost predicate Quiet(s: Ring) {
    s.enq == s.deq && forall t :: 0 <= t < |s.threads| ==> !Active(s.threads[t])
  }

  /** Every push of the run is begun in quiet; pops may be tried by any threads at any time. */
  ghost predicate SerialPushes(s: Ring, trace: seq<(nat, Event)>)
    requires Shape(s) && ValidTrace(s, trace)
  {
    forall k :: 0 <= k < |trace| && trace[k].1.CallPush? ==> Quiet(Run(s, trace[..k]))
  }

  /** The slot itself: free, being filled, filled, or being emptied. */
  ghost predicate SlotFits(s: Ring) {
    && Shape(s) && s.size == 1 && s.enq == |s.log| && s.deq <= s.enq <= s.deq + 1
    && |s.cells[0].data| == s.width && (forall k :: 0 <= k < |s.log| ==> |s.log[k]| == s.width)
    && (s.enq == s.deq ==> s.cells[0].sequence == s.deq)
    && (s.enq == s.deq + 1 ==> s.deq <= s.cells[0].sequence <= s.deq + 1)
    && (s.cells[0].sequence == s.deq + 1 ==> s.cells[0].data == s.log[s.deq])
    && (forall k: nat :: k in s.received ==> k < s.deq && s.received[k] == s.log[k])
  }

  /** What a thread may be doing, given the slot. */
  ghost predicate ThreadFits(s: Ring, pc: Pc)
    requires SlotFits(s)
  {
    var c := s.cells[0];
    match pc
    case PushAt(v, pos) => pos == s.enq == s.deq && |v| == s.width
    case PushReload(_) => false
    case PushFull(_, _) => false
    case PushTry(v, pos) => pos == s.enq == s.deq && |v| == s.width
    case PushCopy(v, pos, copied) =>
      && pos == s.deq && s.enq == s.deq + 1 && v == s.log[pos] && copied <= s.width
      && c.sequence == pos && c.data[..copied] == v[..copied]
    case Pushed(v, pos) => pos < s.enq && v == s.log[pos]
    case PopAt(pos) => pos <= s.deq
    case PopTry(pos) => pos <= s.deq && pos + 1 <= c.sequence
    case PopCopy(pos, buf) =>
      && s.enq == s.deq == pos + 1 && c.data == s.log[pos] && |buf| <= s.width && buf == c.data[..|buf|]
    case Popped(pos, value) => pos < s.enq && value == s.log[pos]
    case _ => true
  }

  ghost predicate SerialInv(s: Ring) {
    && SlotFits(s)
    && (forall t :: 0 <= t < |s.threads| ==> ThreadFits(s, s.threads[t]))
    && (forall t, u :: 0 <= t < |s.threads| && 0 <= u < |s.threads| && Active(s.threads[t]) && Active(s.threads[u]) ==>
          t == u)
  }

  lemma TheSlot(s: Ring, pos: nat)
    requires Shape(s) && s.size == 1
    ensures CellAt(s, pos) == s.cells[0]
    ensures forall c :: SetCell(s, pos, c) == s.(cells := [c])
  {
    SlotFacts(pos, pos, 1);
    assert |s.cells| == 1;
    forall c ensures SetCell(s, pos, c) == s.(cells := [c]) {
      assert s.cells[0 := c] == [c];
    }
  }

  lemma StartSerial(s: Ring)
    requires Init(s) && s.size == 1
    ensures SerialInv(s)
  {
  }

  /** A thread's own step, with the slot and the other threads accounted for, keeps the invariant. */
  lemma OwnStep(s: Ring, t: nat, r: Ring)
    requires SerialInv(s) && t < |s.threads| == |r.threads| && SlotFits(r) && r.width == s.width
    requires forall u :: 0 <= u < |s.threads| && u != t ==> r.threads[u] == s.threads[u]
    requires forall u :: 0 <= u < |s.threads| && u != t ==> ThreadFits(r, s.threads[u])
    requires ThreadFits(r, r.threads[t])
    requires Active(r.threads[t]) ==> forall u :: 0 <= u < |s.threads| && u != t ==> !Active(s.threads[u])
    ensures SerialInv(r)
  {
    hide SlotFits;
    hide ThreadFits;
    hide Active;
  }

  /** Another thread fits after the slot moved on under it, if it is not itself at the slot. */
  lemma BystanderFits(s: Ring, r: Ring, pc: Pc)
    requires SlotFits(s) && SlotFits(r) && ThreadFits(s, pc) && !Active(pc)
    requires s.log <= r.log && s.deq <= r.deq && s.cells[0].sequence <= r.cells[0].sequence
    ensures ThreadFits(r, pc)
  {
  }

  lemma PushWins(s: Ring, t: nat)
    requires SerialInv(s) && t < |s.threads| && s.threads[t].PushTry?
    ensures SerialInv(Step(s, t, Cas(false)))
  {
    assert ThreadFits(s, s.threads[t]);
    var r := Step(s, t, Cas(false));
    assert r.cells == s.cells && r.log == s.log + [s.threads[t].v];
    forall u | 0 <= u < |s.threads| && u != t ensures ThreadFits(r, s.threads[u]) {
      BystanderFits(s, r, s.threads[u]);
    }
    OwnStep(s, t, r);
  }

  lemma PushWrites(s: Ring, t: nat, e: Event)
    requires SerialInv(s) && t < |s.threads| && s.threads[t].PushCopy? && (e.CopyWord? || e.Publish?)
    ensures SerialInv(Step(s, t, e))
  {
    assert ThreadFits(s, s.threads[t]);
    TheSlot(s, s.threads[t].pos);
    hide Slot;
    var r, pc, c := Step(s, t, e), s.threads[t], s.cells[0];
    if r != s {
      if e.Publish? {
        assert c.data == c.data[..s.width] && pc.v == pc.v[..s.width];
      }
      forall u | 0 <= u < |s.threads| && u != t ensures ThreadFits(r, s.threads[u]) {
        BystanderFits(s, r, s.threads[u]);
      }
      OwnStep(s, t, r);
    }
  }

  lemma PopWins(s: Ring, t: nat)
    requires SerialInv(s) && t < |s.threads| && s.threads[t].PopTry? && s.threads[t].pos == s.deq
    ensures SerialInv(Step(s, t, Cas(false)))
  {
    assert ThreadFits(s, s.threads[t]);
    var r := Step(s, t, Cas(false));
    assert r.cells == s.cells;
    forall u | 0 <= u < |s.threads| && u != t ensures ThreadFits(r, s.threads[u]) && !Active(s.threads[u]) {
      assert ThreadFits(s, s.threads[u]);
      BystanderFits(s, r, s.threads[u]);
    }
    OwnStep(s, t, r);
  }

  lemma PopReads(s: Ring, t: nat, e: Event)
    requires SerialInv(s) && t < |s.threads| && s.threads[t].PopCopy? && (e.CopyWord? || e.Publish?)
    ensures SerialInv(Step(s, t, e))
  {
    assert ThreadFits(s, s.threads[t]);
    TheSlot(s, s.threads[t].pos);
    hide Slot;
    var r, pc, c := Step(s, t, e), s.threads[t], s.cells[0];
    if r != s {
      if e.Publish? {
        assert c.data == c.data[..s.width];
      }
      forall u | 0 <= u < |s.threads| && u != t ensures ThreadFits(r, s.threads[u]) {
        BystanderFits(s, r, s.threads[u]);
      }
      OwnStep(s, t, r);
    }
  }

  /** A step that touches nothing but the thread's own place. */
  lemma Elsewhere(s: Ring, t: nat, pc: Pc)
    requires SerialInv(s) && t < |s.threads| && ThreadFits(SetPc(s, t, pc), pc)
    requires Active(pc) ==> Active(s.threads[t]) || Quiet(s)
    ensures SerialInv(SetPc(s, t, pc))
  {
    var r := SetPc(s, t, pc);
    forall u | 0 <= u < |s.threads| && u != t ensures ThreadFits(r, s.threads[u]) {
      assert ThreadFits(s, s.threads[u]);
    }
    OwnStep(s, t, r);
  }

  lemma LocalStep(s: Ring, t: nat, e: Event)
    requires SerialInv(s) && t < |s.threads| && (e.CallPush? ==> Quiet(s))
    requires !(s.threads[t].PushTry? && e == Cas(false))
    requires !(s.threads[t].PopTry? && e == Cas(false) && s.threads[t].pos == s.deq)
    requires !((s.threads[t].PushCopy? || s.threads[t].PopCopy?) && (e.CopyWord? || e.Publish?))
    ensures SerialInv(Step(s, t, e))
  {
    var pc, r := s.threads[t], Step(s, t, e);
    assert ThreadFits(s, pc);
    if pc.PushAt? || pc.PopAt? {
      TheSlot(s, pc.pos);
    }
    hide Slot;
    hide CellAt;
    hide SlotFits;
    if r != s {
      assert r == SetPc(s, t, r.threads[t]);
      assert SlotFits(r) by {
        assert SlotFits(s);
      }
      Elsewhere(s, t, r.threads[t]);
    }
  }

  /** Every step of every thread keeps the slot consistent, as long as pushes begin in quiet. */
  lemma SerialStep(s: Ring, t: nat, e: Event)
    requires SerialInv(s) && t < |s.threads| && (e.CallPush? ==> Quiet(s))
    ensures SerialInv(Step(s, t, e))
  {
    hide SerialInv;
    hide Quiet;
    hide Step;
    var pc := s.threads[t];
    if pc.PushTry? && e == Cas(false) {
      PushWins(s, t);
    } else if pc.PopTry? && e == Cas(false) && pc.pos == s.deq {
      PopWins(s, t);
    } else if pc.PushCopy? && (e.CopyWord? || e.Publish?) {
      PushWrites(s, t, e);
    } else if pc.PopCopy? && (e.CopyWord? || e.Publish?) {
      PopReads(s, t, e);
    } else {
      LocalStep(s, t, e);
    }
  }

  lemma SerialPrefix(s: Ring, trace: seq<(nat, Event)>)
    requires Shape(s) && ValidTrace(s, trace) && trace != [] && SerialPushes(s, trace)
    ensures SerialPushes(s, trace[..|trace| - 1])
    ensures trace[|trace| - 1].1.CallPush? ==> Quiet(Run(s, trace[..|trace| - 1]))
  {
    hide Quiet;
    hide Run;
    var n := |trace| - 1;
    forall k | 0 <= k < n && trace[..n][k].1.CallPush? ensures Quiet(Run(s, trace[..n][..k])) {
      assert trace[..n][..k] == trace[..k];
    }
  }

  lemma {:induction false} SerialRunInv(s: Ring, trace: seq<(nat, Event)>)
    requires Init(s) && s.size == 1 && ValidTrace(s, trace) && SerialPushes(s, trace)
    ensures SerialInv(Run(s, trace))
    decreases |trace|
  {
    hide SerialInv;
    hide Step;
    hide Quiet;
    if trace == [] {
      StartSerial(s);
    } else {
      var n := |trace| - 1;
      SerialPrefix(s, trace);
      hide SerialPushes;
      SerialRunInv(s, trace[..n]);
      SerialStep(Run(s, trace[..n]), trace[n].0, trace[n].1);
    }
  }

  /** On one slot every run whose pushes begin in quiet is faithful, and no push is refused. */
  lemma SerialRunSafe(s: Ring, trace: seq<(nat, Event)>)
    requires Init(s) && s.size == 1 && ValidTrace(s, trace) && SerialPushes(s, trace)
    ensures Faithful(Run(s, trace))
    ensures forall t :: 0 <= t < |s.threads| ==> !Run(s, trace).threads[t].PushFull?
  {
    SerialRunInv(s, trace);
    hide SerialPushes;
    var r := Run(s, trace);
    forall t | 0 <= t < |r.threads|
      ensures !r.threads[t].PushFull?
      ensures match r.threads[t]
              case Pushed(v, pos) => pos < |r.log| && v == r.log[pos]
              case Popped(pos, value) => pos < |r.log| && value == r.log[pos]
              case _ => true
    {
      assert ThreadFits(r, r.threads[t]);
    }
  }

  /** There too every step is a step of an atomic queue, now of one entry. */
  lemma SerialStepIsQueueStep(s: Ring, t: nat, e: Event)
    requires SerialInv(s) && t < |s.threads| && (e.CallPush? ==> Quiet(s))
    ensures var r := Step(s, t, e);
            && SerialInv(r) && |Contents(r)| <= 1
            && (if s.threads[t].PushTry? && e == Cas(false) then
                  Contents(s) == [] && Contents(r) == [s.threads[t].v]
                else if s.threads[t].PopTry? && e == Cas(false) && s.threads[t].pos == s.deq then
                  Contents(r) == [] && Contents(s) == [r.log[s.threads[t].pos]]
                else Contents(r) == Contents(s))
  {
    SerialStep(s, t, e);
    assert ThreadFits(s, s.threads[t]);
    hide Slot;
  }
}
