/** What the threads of a program may rely on, step by step, from a ring of any size: from two slots on always, on one
    slot as long as pushes begin in quiet. */
module RingQueue {
  import opened MpmcRing
  import opened OneSlotRing

  ghost predicate Good(s: Ring) {
    if s.size == 1 then SerialInv(s) else Inv(s)
  }

  lemma GoodBounds(s: Ring)
    requires Good(s)
    ensures Shape(s) && s.enq == |s.log| && s.deq <= s.enq
  {
    if s.size != 1 {
      QueueBounds(s);
    }
  }

  lemma StartsGood(s: Ring)
    requires Init(s)
    ensures Good(s) && s.deq <= s.enq == |s.log| && Contents(s) == []
  {
    if s.size == 1 {
      StartSerial(s);
    } else {
      InitInv(s);
    }
  }

  /** A winning push swap appends its entry, a winning pop swap takes the head, nothing else changes the queue. */
  ghost predicate QueueStep(s: Ring, t: nat, e: Event, r: Ring)
    requires s.deq <= s.enq == |s.log| && r.deq <= r.enq == |r.log| && t < |s.threads|
  {
    if s.threads[t].PushTry? && e == Cas(false) && s.threads[t].pos == s.enq then
      Contents(r) == Contents(s) + [s.threads[t].v]
    else if s.threads[t].PopTry? && e == Cas(false) && s.threads[t].pos == s.deq then
      && Contents(s) != [] && Contents(r) == Contents(s)[1..]
      && s.threads[t].pos < |r.log| && r.log[s.threads[t].pos] == Contents(s)[0]
    else Contents(r) == Contents(s)
  }

  lemma GoodStep(s: Ring, t: nat, e: Event)
    requires Good(s) && t < |s.threads| && (s.size == 1 && e.CallPush? ==> Quiet(s))
    ensures s.deq <= s.enq == |s.log| && Shape(s)
    ensures var r := Step(s, t, e);
            && Good(r) && r.deq <= r.enq == |r.log| && s.log <= r.log && QueueStep(s, t, e, r)
            && forall u :: 0 <= u < |s.threads| && u != t ==> r.threads[u] == s.threads[u]
  {
    hide Slot;
    hide Inv;
    hide SerialInv;
    hide Quiet;
    hide QueueStep;
    GoodBounds(s);
    OthersStay(s, t, e);
    if s.size == 1 {
      SerialQueueStep(s, t, e);
    } else {
      StepIsQueueStep(s, t, e);
      WideQueueStep(s, t, e);
    }
    GoodBounds(Step(s, t, e));
  }

  lemma WideQueueStep(s: Ring, t: nat, e: Event)
    requires Inv(s) && t < |s.threads|
    ensures s.deq <= s.enq == |s.log| && Shape(s)
    ensures var r := Step(s, t, e); r.deq <= r.enq == |r.log| && QueueStep(s, t, e, r)
  {
    hide Slot;
    hide Inv;
    QueueBounds(s);
    StepIsQueueStep(s, t, e);
    QueueBounds(Step(s, t, e));
    LogAfter(s, t, e);
    hide Step;
  }

  lemma SerialQueueStep(s: Ring, t: nat, e: Event)
    requires SerialInv(s) && s.size == 1 && t < |s.threads| && (e.CallPush? ==> Quiet(s))
    ensures s.deq <= s.enq == |s.log| && Shape(s)
    ensures var r := Step(s, t, e);
            && SerialInv(r) && r.size == 1 && r.deq <= r.enq == |r.log| && s.log <= r.log && QueueStep(s, t, e, r)
  {
    hide Slot;
    assert ThreadFits(s, s.threads[t]);
    SerialStepIsQueueStep(s, t, e);
    LogAfter(s, t, e);
    hide SerialInv;
    hide Quiet;
    hide Step;
  }

  lemma OthersStay(s: Ring, t: nat, e: Event)
    requires Shape(s) && t < |s.threads|
    ensures var r := Step(s, t, e);
            |r.threads| == |s.threads| && forall u :: 0 <= u < |s.threads| && u != t ==> r.threads[u] == s.threads[u]
  {
    hide Slot;
  }

  /** What a thread that has won a ticket holds. */
  lemma Holdings(s: Ring, t: nat)
    requires Good(s) && t < |s.threads|
    ensures s.deq <= s.enq == |s.log|
    ensures match s.threads[t]
            case PushCopy(v, pos, _) => s.deq <= pos < s.enq && s.log[pos] == v
            case PopCopy(pos, _) => pos < |s.log|
            case Popped(pos, value) => pos < |s.log| && value == s.log[pos]
            case _ => true
  {
    hide Slot;
    GoodBounds(s);
    if s.size == 1 {
      assert ThreadFits(s, s.threads[t]);
    } else {
      assert ThreadOk(s, t);
      if s.threads[t].PushCopy? {
        SlotFacts(s.threads[t].pos, s.threads[t].pos, s.size);
        assert CellOk(s, Slot(s.threads[t].pos, s.size));
      }
    }
  }

  /** A pop can win only what has been published. */
  lemma WonIsPublished(s: Ring, t: nat, u: nat)
    requires Good(s) && t < |s.threads| && u < |s.threads| && s.threads[t].PopTry? && s.threads[t].pos == s.deq
    ensures s.threads[u].PushCopy? ==> s.threads[u].pos != s.deq
  {
    hide Slot;
    if s.size == 1 {
      assert ThreadFits(s, s.threads[t]) && ThreadFits(s, s.threads[u]);
    } else {
      assert ThreadOk(s, t) && ThreadOk(s, u);
    }
  }
}
