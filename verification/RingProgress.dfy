/** When the ring refuses, in every run; and that a thread left alone gets through, in a known number of steps. */
module RingProgress {
  import opened MpmcRing

  // ---------------------------------------------------------------- refusals

  /** No step makes Push give up but one that finds the ticket it looks at to be the next one and the pop one lap back
      unfinished; none makes Pop give up but one that finds its ticket the next and the push of it unfinished or not
      begun. */
  lemma RefusedOnly(s: Ring, t: nat, e: Event, u: nat)
    requires Inv(s) && t < |s.threads| && u < |s.threads|
    ensures var r := Step(s, t, e);
            && (r.threads[u].PushFull? && !s.threads[u].PushFull? ==>
                  && u == t && s.threads[u].PushAt? && r.threads[u].v == s.threads[u].v
                  && s.threads[u].pos == s.enq >= s.size && s.enq - s.size !in s.received)
            && (r.threads[u].PopEmpty? && !s.threads[u].PopEmpty? ==>
                  && u == t && s.threads[u].PopAt? && s.threads[u].pos == s.deq
                  && (s.deq == s.enq || exists w: nat :: Pushing(s, w, s.deq)))
  {
    hide Slot;
    hide Inv;
    if s.threads[t].PushAt? {
      PushRefusedExactlyWhen(s, t);
    } else if s.threads[t].PopAt? {
      PopRefusedExactlyWhen(s, t);
    }
  }

  /** The same in every run of any threads. */
  lemma RunRefusedOnly(s: Ring, trace: seq<(nat, Event)>, k: nat, u: nat)
    requires Init(s) && s.size >= 2 && ValidTrace(s, trace) && k < |trace| && u < |s.threads|
    ensures var a, b := Run(s, trace[..k]), Run(s, trace[..k + 1]);
            && (b.threads[u].PushFull? && !a.threads[u].PushFull? ==> a.enq >= a.size && a.enq - a.size !in a.received)
            && (b.threads[u].PopEmpty? && !a.threads[u].PopEmpty? ==>
                  a.deq == a.enq || exists w: nat :: Pushing(a, w, a.deq))
  {
    hide Inv;
    hide Step;
    RunUpTo(s, trace, k);
    hide Run;
    RefusedOnly(Run(s, trace[..k]), trace[k].0, trace[k].1, u);
  }

  lemma RunUpTo(s: Ring, trace: seq<(nat, Event)>, k: nat)
    requires Init(s) && s.size >= 2 && ValidTrace(s, trace) && k < |trace|
    ensures ValidTrace(s, trace[..k]) && ValidTrace(s, trace[..k + 1]) && trace[k].0 < |s.threads|
    ensures Inv(Run(s, trace[..k])) && |Run(s, trace[..k]).threads| == |s.threads|
    ensures Run(s, trace[..k + 1]) == Step(Run(s, trace[..k]), trace[k].0, trace[k].1)
  {
    hide Inv;
    hide Step;
    RunInv(s, trace[..k]);
    assert trace[..k + 1][..k] == trace[..k];
  }

  // ---------------------------------------------------------------- one thread alone

  /** What the program of a thread does next while its call lasts, its swaps not failing for no reason. */
  function NextEvent(pc: Pc, width: nat): Event {
    match pc
    case PushAt(_, _) => LoadSequence
    case PushReload(_) => ReloadPosition
    case PushTry(_, _) => Cas(false)
    case PushCopy(_, _, copied) => if copied < width then CopyWord else Publish
    case PopAt(_) => LoadSequence
    case PopReload => ReloadPosition
    case PopTry(_) => Cas(false)
    case PopCopy(_, buf) => if |buf| < width then CopyWord else Publish
    case _ => Return
  }

  /** n steps of thread t, none of the others. */
  function Alone(s: Ring, t: nat, n: nat): (r: Ring)
    requires Shape(s) && t < |s.threads|
    ensures Shape(r) && |r.threads| == |s.threads| && r.size == s.size && r.width == s.width
    decreases n
  {
    if n == 0 then s else Alone(Step(s, t, NextEvent(s.threads[t], s.width)), t, n - 1)
  }

  predicate InPush(pc: Pc) {
    pc.PushAt? || pc.PushReload? || pc.PushTry? || pc.PushCopy?
  }

  predicate InPop(pc: Pc) {
    pc.PopAt? || pc.PopReload? || pc.PopTry? || pc.PopCopy?
  }

  /** Steps left to a push alone: a stale position costs two more. */
  function PushSteps(s: Ring, pc: Pc): nat
    requires InPush(pc) && (pc.PushCopy? ==> pc.copied <= s.width)
  {
    match pc
    case PushAt(_, pos) => s.width + if pos == s.enq then 3 else 5
    case PushReload(_) => s.width + 4
    case PushTry(_, pos) => s.width + if pos == s.enq then 2 else 4
    case PushCopy(_, _, copied) => s.width - copied + 1
  }

  function PopSteps(s: Ring, pc: Pc): nat
    requires InPop(pc) && (pc.PopCopy? ==> |pc.buf| <= s.width)
  {
    match pc
    case PopAt(pos) => s.width + if pos == s.deq then 3 else 5
    case PopReload => s.width + 4
    case PopTry(pos) => s.width + if pos == s.deq then 2 else 4
    case PopCopy(_, buf) => s.width - |buf| + 1
  }

  /** The next slot has been given back. */
  predicate Room(s: Ring)
    requires Shape(s)
  {
    s.enq < s.size || s.enq - s.size in s.received
  }

  /** The next entry has been published. */
  ghost predicate Waiting(s: Ring)
    requires Shape(s)
  {
    s.deq < s.enq && forall u: nat :: !Pushing(s, u, s.deq)
  }

  lemma RoomMeans(s: Ring)
    requires Inv(s) && Room(s)
    ensures CellAt(s, s.enq).sequence == s.enq
  {
    hide Slot;
    PushSight(s, s.enq);
  }

  lemma WaitingMeans(s: Ring)
    requires Inv(s) && Waiting(s)
    ensures CellAt(s, s.deq).sequence == s.deq + 1
  {
    hide Slot;
    PopSight(s, s.deq);
  }

  /** One step of a push alone. */
  lemma PushStep(s: Ring, t: nat)
    requires Inv(s) && t < |s.threads| && InPush(s.threads[t]) && (s.threads[t].PushCopy? || Room(s))
    ensures s.threads[t].PushCopy? ==> s.threads[t].copied <= s.width
    ensures var pc, r := s.threads[t], Step(s, t, NextEvent(s.threads[t], s.width));
            var now := r.threads[t];
            && r.deq == s.deq && r.received == s.received
            && (forall u :: 0 <= u < |s.threads| && u != t ==> r.threads[u] == s.threads[u])
            && (if pc.PushCopy? && pc.copied == s.width then now == Pushed(pc.v, pc.pos) && r.log == s.log
                else
                  && InPush(now) && now.v == pc.v && (now.PushCopy? ==> now.copied <= s.width)
                  && PushSteps(r, now) + 1 == PushSteps(s, pc)
                  && (if pc.PushCopy? then now.PushCopy? && now.pos == pc.pos && r.log == s.log
                      else if now.PushCopy? then now.pos == s.enq && r.log == s.log + [pc.v]
                      else r.log == s.log && r.enq == s.enq))
  {
    hide Slot;
    assert ThreadOk(s, t);
    if !s.threads[t].PushCopy? {
      RoomMeans(s);
      if s.threads[t].PushAt? {
        PushSight(s, s.threads[t].pos);
      }
    }
    hide CellOk;
  }

  /** A push alone, wherever it stands, ends after exactly the steps it has left: its entry is appended, or was already,
      at the ticket it reports, and nothing else is changed for anyone. */
  lemma {:induction false} PushAlone(s: Ring, t: nat)
    requires Inv(s) && t < |s.threads| && InPush(s.threads[t]) && (s.threads[t].PushCopy? || Room(s))
    ensures s.threads[t].PushCopy? ==> s.threads[t].copied <= s.width
    ensures var pc, r := s.threads[t], Alone(s, t, PushSteps(s, s.threads[t]));
            && Inv(r) && r.deq == s.deq
            && (forall u :: 0 <= u < |s.threads| && u != t ==> r.threads[u] == s.threads[u])
            && (pc.PushCopy? ==> r.threads[t] == Pushed(pc.v, pc.pos) && r.log == s.log)
            && (!pc.PushCopy? ==> r.threads[t] == Pushed(pc.v, s.enq) && r.log == s.log + [pc.v])
    decreases var pc := s.threads[t]; if pc.PushCopy? && pc.copied > s.width then 0 else PushSteps(s, pc)
  {
    hide Inv;
    hide Step;
    hide PushSteps;
    QueueBounds(s);
    PushStep(s, t);
    var pc, e := s.threads[t], NextEvent(s.threads[t], s.width);
    var r := Step(s, t, e);
    InvStep(s, t, e);
    PushStepsLeft(s, pc);
    if r.threads[t].Pushed? {
      assert Alone(r, t, 0) == r;
    } else {
      PushAlone(r, t);
    }
  }

  lemma PushStepsLeft(s: Ring, pc: Pc)
    requires InPush(pc) && (pc.PushCopy? ==> pc.copied <= s.width)
    ensures PushSteps(s, pc) >= 1
    ensures pc.PushCopy? && pc.copied == s.width ==> PushSteps(s, pc) == 1
  {
  }

  /** One step of a pop alone. */
  lemma PopStep(s: Ring, t: nat)
    requires Inv(s) && t < |s.threads| && InPop(s.threads[t]) && (s.threads[t].PopCopy? || Waiting(s))
    ensures s.threads[t].PopCopy? ==> |s.threads[t].buf| <= s.width && s.threads[t].pos < |s.log|
    ensures var pc, r := s.threads[t], Step(s, t, NextEvent(s.threads[t], s.width));
            var now := r.threads[t];
            && r.log == s.log
            && (forall u :: 0 <= u < |s.threads| && u != t ==> r.threads[u] == s.threads[u])
            && (if pc.PopCopy? && |pc.buf| == s.width then now == Popped(pc.pos, s.log[pc.pos]) && r.deq == s.deq
                else
                  && InPop(now) && (now.PopCopy? ==> |now.buf| <= s.width)
                  && PopSteps(r, now) + 1 == PopSteps(s, pc)
                  && (if pc.PopCopy? then now.PopCopy? && now.pos == pc.pos && r.deq == s.deq
                      else if now.PopCopy? then now.pos == s.deq && r.deq == s.deq + 1
                      else r.deq == s.deq && r.enq == s.enq))
  {
    hide Slot;
    assert ThreadOk(s, t);
    if !s.threads[t].PopCopy? {
      WaitingMeans(s);
      if s.threads[t].PopAt? {
        PopSight(s, s.threads[t].pos);
      }
    } else {
      SlotFacts(s.threads[t].pos, s.threads[t].pos, s.size);
      assert CellOk(s, Slot(s.threads[t].pos, s.size));
    }
    hide CellOk;
  }

  /** While a pop has no ticket its steps leave the head as it is. */
  lemma StillWaiting(s: Ring, t: nat, r: Ring)
    requires Shape(s) && Shape(r) && Waiting(s) && t < |s.threads| == |r.threads| && InPop(r.threads[t])
    requires r.deq == s.deq && r.enq == s.enq
    requires forall u :: 0 <= u < |s.threads| && u != t ==> r.threads[u] == s.threads[u]
    ensures Waiting(r)
  {
    forall u: nat ensures !Pushing(r, u, r.deq) {
      assert !Pushing(s, u, s.deq);
    }
  }

  /** A pop alone, wherever it stands, ends after exactly the steps it has left, with the entry at the head, or the one
      whose ticket it holds, and nothing else is changed for anyone. */
  lemma {:induction false} PopAlone(s: Ring, t: nat)
    requires Inv(s) && t < |s.threads| && InPop(s.threads[t]) && (s.threads[t].PopCopy? || Waiting(s))
    ensures s.threads[t].PopCopy? ==> |s.threads[t].buf| <= s.width && s.threads[t].pos < |s.log|
    ensures !s.threads[t].PopCopy? ==> s.deq < |s.log|
    ensures var pc, r := s.threads[t], Alone(s, t, PopSteps(s, s.threads[t]));
            && Inv(r) && r.log == s.log
            && (forall u :: 0 <= u < |s.threads| && u != t ==> r.threads[u] == s.threads[u])
            && (pc.PopCopy? ==> r.threads[t] == Popped(pc.pos, s.log[pc.pos]) && r.deq == s.deq)
            && (!pc.PopCopy? ==> r.threads[t] == Popped(s.deq, s.log[s.deq]) && r.deq == s.deq + 1)
    decreases var pc := s.threads[t]; if pc.PopCopy? && |pc.buf| > s.width then 0 else PopSteps(s, pc)
  {
    hide Inv;
    hide Step;
    hide PopSteps;
    QueueBounds(s);
    PopStep(s, t);
    var pc, e := s.threads[t], NextEvent(s.threads[t], s.width);
    var r := Step(s, t, e);
    InvStep(s, t, e);
    PopStepsLeft(s, pc);
    if r.threads[t].Popped? {
      assert Alone(r, t, 0) == r;
    } else {
      if !r.threads[t].PopCopy? {
        StillWaiting(s, t, r);
      }
      PopAlone(r, t);
    }
  }

  lemma PopStepsLeft(s: Ring, pc: Pc)
    requires InPop(pc) && (pc.PopCopy? ==> |pc.buf| <= s.width)
    ensures PopSteps(s, pc) >= 1
    ensures pc.PopCopy? && |pc.buf| == s.width ==> PopSteps(s, pc) == 1
  {
  }

  // ---------------------------------------------------------------- whole calls

  /** Push called with room and no one in the way: after loading the position and then the sequence, swapping, copying
      every word and publishing, it has its entry in the queue's last place, published. */
  lemma PushCall(s: Ring, t: nat, v: Entry)
    requires Inv(s) && t < |s.threads| && s.threads[t].Idle? && |v| == s.width && Room(s)
    ensures s.enq == |s.log| && s.deq <= s.enq
    ensures var r := Alone(Step(s, t, CallPush(v)), t, s.width + 3);
            && Inv(r) && r.threads[t] == Pushed(v, s.enq) && r.log == s.log + [v] && r.deq == s.deq
            && CellAt(r, s.enq).sequence == s.enq + 1
            && Step(r, t, Return) == r.(threads := r.threads[t := Idle])
  {
    hide Slot;
    hide Inv;
    QueueBounds(s);
    var a := Step(s, t, CallPush(v));
    InvStep(s, t, CallPush(v));
    assert a.threads[t] == PushAt(v, s.enq);
    PushAlone(a, t);
    var r := Alone(a, t, s.width + 3);
    QueueBounds(r);
    TicketsBelow(s);
    forall u: nat | u != t ensures !Pushing(r, u, s.enq) {
      assert !Pushing(s, u, s.enq);
    }
    PushedIsPublished(r, t);
    hide Alone;
  }

  /** Every ticket won by a push is below the next one. */
  lemma TicketsBelow(s: Ring)
    requires Inv(s)
    ensures forall u: nat :: !Pushing(s, u, s.enq)
  {
    hide CellOk;
    forall u: nat | u < |s.threads| ensures !Pushing(s, u, s.enq) {
      assert ThreadOk(s, u);
    }
  }

  /** What Push has returned from is published, unless it has been popped since. */
  lemma PushedIsPublished(s: Ring, t: nat)
    requires Inv(s) && t < |s.threads| && s.threads[t].Pushed? && s.threads[t].pos + 1 == s.enq
    requires s.deq < s.enq && forall u: nat :: u != t ==> !Pushing(s, u, s.threads[t].pos)
    ensures CellAt(s, s.threads[t].pos).sequence == s.threads[t].pos + 1
  {
    hide Slot;
    var pos := s.threads[t].pos;
    SlotFacts(pos, pos, s.size);
    assert CellOk(s, Slot(pos, s.size));
    var c := CellAt(s, pos);
    SlotFacts(pos, c.ticket, s.size);
    SlotFacts(c.ticket, pos, s.size);
    assert c.ticket == pos;
  }

  /** Pop called with a published entry at the head and no one in the way takes that entry. */
  lemma PopCall(s: Ring, t: nat)
    requires Inv(s) && t < |s.threads| && s.threads[t].Idle? && Waiting(s)
    ensures s.deq < |s.log|
    ensures var r := Alone(Step(s, t, CallPop), t, s.width + 3);
            && Inv(r) && r.threads[t] == Popped(s.deq, s.log[s.deq]) && r.log == s.log && r.deq == s.deq + 1
            && Step(r, t, Return) == r.(threads := r.threads[t := Idle])
  {
    hide Slot;
    hide Inv;
    QueueBounds(s);
    var a := Step(s, t, CallPop);
    InvStep(s, t, CallPop);
    assert a.threads[t] == PopAt(s.deq);
    forall u: nat ensures !Pushing(a, u, a.deq) {
      assert !Pushing(s, u, s.deq);
    }
    PopAlone(a, t);
    hide Alone;
  }

  /** Called when it must refuse, each looks once, answers no, and leaves everything as it was. */
  lemma RefusedCalls(s: Ring, t: nat, v: Entry)
    requires Inv(s) && t < |s.threads| && s.threads[t].Idle? && |v| == s.width
    ensures !Room(s) ==>
              && Alone(Step(s, t, CallPush(v)), t, 1) == s.(threads := s.threads[t := PushFull(v, s.enq)])
              && Alone(Step(s, t, CallPush(v)), t, 2) == s
    ensures !Waiting(s) ==>
              && Alone(Step(s, t, CallPop), t, 1) == s.(threads := s.threads[t := PopEmpty(s.deq)])
              && Alone(Step(s, t, CallPop), t, 2) == s
  {
    hide CellOk;
    hide ThreadOk;
    hide Alone;
    hide Step;
    hide Room;
    hide Waiting;
    if !Room(s) {
      RefusedPush(s, t, v);
    }
    if !Waiting(s) {
      RefusedPop(s, t);
    }
  }

  lemma RefusedPush(s: Ring, t: nat, v: Entry)
    requires Inv(s) && t < |s.threads| && s.threads[t].Idle? && |v| == s.width && !Room(s)
    ensures Alone(Step(s, t, CallPush(v)), t, 1) == s.(threads := s.threads[t := PushFull(v, s.enq)])
    ensures Alone(Step(s, t, CallPush(v)), t, 2) == s
  {
    hide Inv;
    hide Alone;
    hide CellAt;
    QueueBounds(s);
    PushSight(s, s.enq);
    assert s.threads[t := Idle] == s.threads;
    var a := Step(s, t, CallPush(v));
    SameSight(s, t, a, s.enq);
    assert Step(a, t, LoadSequence) == s.(threads := s.threads[t := PushFull(v, s.enq)]);
    TwoAlone(a, t);
  }

  lemma RefusedPop(s: Ring, t: nat)
    requires Inv(s) && t < |s.threads| && s.threads[t].Idle? && !Waiting(s)
    ensures Alone(Step(s, t, CallPop), t, 1) == s.(threads := s.threads[t := PopEmpty(s.deq)])
    ensures Alone(Step(s, t, CallPop), t, 2) == s
  {
    hide Inv;
    hide Alone;
    hide CellAt;
    QueueBounds(s);
    PopSight(s, s.deq);
    assert s.threads[t := Idle] == s.threads;
    var a := Step(s, t, CallPop);
    SameSight(s, t, a, s.deq);
    assert Step(a, t, LoadSequence) == s.(threads := s.threads[t := PopEmpty(s.deq)]);
    TwoAlone(a, t);
  }

  /** A thread that moves on within its call leaves the slots as they are. */
  lemma SameSight(s: Ring, t: nat, a: Ring, pos: nat)
    requires Shape(s) && t < |s.threads| && a == s.(threads := a.threads) && |a.threads| == |s.threads|
    ensures CellAt(a, pos) == CellAt(s, pos)
  {
  }

  lemma TwoAlone(s: Ring, t: nat)
    requires Shape(s) && t < |s.threads|
    ensures var b := Step(s, t, NextEvent(s.threads[t], s.width));
            && Alone(s, t, 1) == b
            && Alone(s, t, 2) == Step(b, t, NextEvent(b.threads[t], b.width))
  {
    hide Step;
    var b := Step(s, t, NextEvent(s.threads[t], s.width));
    assert Alone(b, t, 0) == b;
    var c := Step(b, t, NextEvent(b.threads[t], b.width));
    assert Alone(c, t, 0) == c;
    assert Alone(b, t, 1) == c;
  }
}
