/** The hardware submission queue: a circular buffer clocked once per cycle. */
module SubmissionQueue {
  import opened Bits

  /** What the host and the engine drive in one clock. */
  datatype Input<T> = Input(rstN: bool, wrEn: bool, dataIn: T, rdEn: bool)

  /** The queue as its users see it: the commands waiting, the full flag, the output register. */
  datatype Fifo<T> = Fifo(pending: seq<T>, full: bool, dataOut: T)

  function After<T>(pending: seq<T>, write: bool, read: bool, x: T): seq<T>
    requires read ==> pending != []
  {
    (if read then pending[1..] else pending) + (if write then [x] else [])
  }

  /** One clock with n slots; the flag is set by a write into the last slot even if a read empties one. */
  function Step<T>(n: nat, zero: T, s: Fifo<T>, i: Input<T>): Fifo<T> {
    if !i.rstN then Fifo([], false, zero)
    else
      var accept, deliver := Accepts(s, i), Delivers(s, i);
      Fifo(After(s.pending, accept, deliver, i.dataIn),
           if s.full then !i.rdEn else accept && |s.pending| == n - 1,
           if deliver then s.pending[0] else s.dataOut)
  }

  predicate Accepts<T>(s: Fifo<T>, i: Input<T>) {
    i.rstN && i.wrEn && !s.full
  }

  predicate Delivers<T>(s: Fifo<T>, i: Input<T>) {
    i.rstN && i.rdEn && |s.pending| != 0
  }

  function Run<T>(n: nat, zero: T, inputs: seq<Input<T>>): Fifo<T> {
    if inputs == [] then Fifo([], false, zero)
    else Step(n, zero, Run(n, zero, inputs[..|inputs| - 1]), inputs[|inputs| - 1])
  }

  /** The commands accepted since the last reset, in order. */
  function Accepted<T>(n: nat, zero: T, inputs: seq<Input<T>>): seq<T> {
    if inputs == [] then []
    else
      var before, i := inputs[..|inputs| - 1], inputs[|inputs| - 1];
      if !i.rstN then []
      else Accepted(n, zero, before) + if Accepts(Run(n, zero, before), i) then [i.dataIn] else []
  }

  /** The values the output register took since the last reset, one for each clock that delivered. */
  function Delivered<T>(n: nat, zero: T, inputs: seq<Input<T>>): seq<T> {
    if inputs == [] then []
    else
      var before, i := inputs[..|inputs| - 1], inputs[|inputs| - 1];
      if !i.rstN then []
      else Delivered(n, zero, before)
             + if Delivers(Run(n, zero, before), i) then [Run(n, zero, inputs).dataOut] else []
  }

  predicate Consistent<T>(n: nat, s: Fifo<T>) {
    |s.pending| <= n && (|s.pending| == n ==> s.full) && (s.full ==> |s.pending| >= n - 1)
  }

  lemma StepConsistent<T>(n: nat, zero: T, s: Fifo<T>, i: Input<T>)
    requires n >= 2 && Consistent(n, s)
    ensures Consistent(n, Step(n, zero, s, i))
  {
  }

  /** In every run the queue is full when it holds n commands, and never full with fewer than n - 1. */
  lemma {:induction false} RunConsistent<T>(n: nat, zero: T, inputs: seq<Input<T>>)
    requires n >= 2
    ensures Consistent(n, Run(n, zero, inputs))
  {
    if inputs != [] {
      RunConsistent(n, zero, inputs[..|inputs| - 1]);
      StepConsistent(n, zero, Run(n, zero, inputs[..|inputs| - 1]), inputs[|inputs| - 1]);
    }
  }

  /** Full with a slot to spare arises exactly from a push and a pop in one clock at n - 1 commands,
      and lasts exactly until the next pop or reset. */
  lemma EarlyFullExactlyWhen<T>(n: nat, zero: T, s: Fifo<T>, i: Input<T>)
    requires n >= 2 && Consistent(n, s)
    ensures var t := Step(n, zero, s, i);
            t.full && |t.pending| == n - 1 <==>
              i.rstN && |s.pending| == n - 1 && if s.full then !i.rdEn else i.wrEn && i.rdEn
  {
  }

  /** Every accepted command is delivered once, in order, or still waiting. */
  lemma {:induction false} InOrderOnce<T>(n: nat, zero: T, inputs: seq<Input<T>>)
    ensures Delivered(n, zero, inputs) + Run(n, zero, inputs).pending == Accepted(n, zero, inputs)
  {
    if inputs != [] {
      var before, i := inputs[..|inputs| - 1], inputs[|inputs| - 1];
      InOrderOnce(n, zero, before);
      var s := Run(n, zero, before);
      if i.rstN && Delivers(s, i) {
        assert s.pending == [s.pending[0]] + s.pending[1..];
      }
    }
  }

  /** The slot k places after the read pointer. */
  function SlotAt(n: nat, rd: nat, k: nat): nat
    requires rd < n && k <= n
  {
    if rd + k >= n then rd + k - n else rd + k
  }

  function Inc(n: nat, p: nat): nat {
    if p + 1 == n then 0 else p + 1
  }

  /** The waiting commands lie in consecutive slots from the read pointer on. */
  ghost predicate Laid<T>(n: nat, mem: seq<T>, rd: nat, pending: seq<T>)
    requires rd < n
  {
    |mem| == n && |pending| <= n && forall k :: 0 <= k < |pending| ==> pending[k] == mem[SlotAt(n, rd, k)]
  }

  lemma LaidPop<T>(n: nat, mem: seq<T>, rd: nat, pending: seq<T>)
    requires rd < n && Laid(n, mem, rd, pending) && pending != []
    ensures pending[0] == mem[rd]
    ensures Inc(n, rd) < n && Laid(n, mem, Inc(n, rd), pending[1..])
    ensures SlotAt(n, Inc(n, rd), |pending| - 1) == SlotAt(n, rd, |pending|)
  {
  }

  lemma LaidPush<T>(n: nat, mem: seq<T>, rd: nat, pending: seq<T>, x: T)
    requires rd < n && Laid(n, mem, rd, pending) && |pending| < n
    ensures SlotAt(n, rd, |pending|) < n
    ensures Laid(n, mem[SlotAt(n, rd, |pending|) := x], rd, pending + [x])
    ensures Inc(n, SlotAt(n, rd, |pending|)) == SlotAt(n, rd, |pending| + 1)
    ensures Inc(n, SlotAt(n, rd, |pending|)) == rd <==> |pending| == n - 1
  {
  }

  /** A push, a pop or both in one clock move the pointers and the slots together. */
  lemma LaidTick<T>(n: nat, mem: seq<T>, rd: nat, pending: seq<T>, write: bool, read: bool, x: T)
    requires rd < n && Laid(n, mem, rd, pending) && (read ==> pending != []) && (write ==> |pending| < n)
    ensures var wr := SlotAt(n, rd, |pending|);
            var wr' := if write then Inc(n, wr) else wr;
            var rd' := if read then Inc(n, rd) else rd;
            && wr < n && wr' < n && rd' < n && |After(pending, write, read, x)| <= n
            && wr' == SlotAt(n, rd', |After(pending, write, read, x)|)
            && Laid(n, if write then mem[wr := x] else mem, rd', After(pending, write, read, x))
            && (write ==> (Inc(n, wr) == rd <==> |pending| == n - 1))
            && (wr == rd <==> pending == [] || |pending| == n)
            && (pending != [] ==> pending[0] == mem[rd])
  {
    if pending != [] {
      LaidPop(n, mem, rd, pending);
    }
    if write {
      LaidPush(n, mem, rd, pending, x);
      if read {
        LaidPush(n, mem, Inc(n, rd), pending[1..], x);
      }
    }
  }

  class SubmissionQueue<T(0)> {
    const slots: nat
    const zero: T
    var wrPtr: nat
    var rdPtr: nat
    var isFull: bool
    var dataOut: T
    const queueMem: array<T>
    ghost var pending: seq<T>

    ghost predicate Valid()
      reads this, queueMem
    {
      && slots >= 2 && queueMem.Length == slots && wrPtr < slots && rdPtr < slots
      && Consistent(slots, Abs())
      && wrPtr == SlotAt(slots, rdPtr, |pending|)
      && Laid(slots, queueMem[..], rdPtr, pending)
    }

    ghost function Abs(): Fifo<T>
      reads this
    {
      Fifo(pending, isFull, dataOut)
    }

    /** The empty output holds exactly when nothing waits. */
    predicate Empty()
      requires Valid()
      reads this, queueMem
      ensures Empty() <==> pending == []
    {
      wrPtr == rdPtr && !isFull
    }

    predicate Full()
      requires Valid()
      reads this, queueMem
      ensures |pending| == slots ==> Full()
      ensures Full() ==> |pending| >= slots - 1
    {
      isFull
    }

    constructor (addrWidth: nat, zero_: T)
      requires addrWidth >= 1
      ensures Valid() && fresh(queueMem) && slots == Pow2(addrWidth) && zero == zero_
      ensures Abs() == Fifo([], false, zero)
    {
      slots := Pow2(addrWidth);
      zero := zero_;
      queueMem := new T[Pow2(addrWidth)];
      wrPtr, rdPtr, isFull, dataOut, pending := 0, 0, false, zero_, [];
      assert Pow2(1) == 2;
    }

    /** One rising clock edge: every right-hand side reads the registers as they were. */
    method Tick(i: Input<T>)
      requires Valid()
      modifies this, queueMem
      ensures Valid()
      ensures Abs() == Step(slots, zero, old(Abs()), i)
      ensures !i.rstN ==> pending == [] && !isFull && dataOut == zero
      ensures i.rstN ==>
                var read, write := i.rdEn && old(pending) != [], i.wrEn && !old(isFull);
                && pending == (if read then old(pending)[1..] else old(pending)) + (if write then [i.dataIn] else [])
                && dataOut == if read then old(pending)[0] else old(dataOut)
    {
      if !i.rstN {
        wrPtr, rdPtr, isFull, dataOut, pending := 0, 0, false, zero, [];
        return;
      }
      Advance(i);
    }

    /** The clock edge out of reset. */
    method Advance(i: Input<T>)
      requires Valid() && i.rstN
      modifies this, queueMem
      ensures Valid()
      ensures Abs() == Step(slots, zero, old(Abs()), i)
    {
      hide Laid;
      hide SlotAt;
      hide Inc;
      hide After;
      ghost var mem, waiting := queueMem[..], pending;
      StepConsistent(slots, zero, Abs(), i);
      var write, read := i.wrEn && !isFull, i.rdEn && !Empty();
      LaidTick(slots, mem, rdPtr, waiting, write, read, i.dataIn);
      var wrPtr', rdPtr', isFull', dataOut' := wrPtr, rdPtr, isFull, dataOut;
      if read {
        dataOut' := queueMem[rdPtr];
        rdPtr' := Inc(slots, rdPtr);
      }
      if write && Inc(slots, wrPtr) == rdPtr {
        isFull' := true;
      }
      if i.rdEn && isFull {
        isFull' := false;
      }
      if write {
        queueMem[wrPtr] := i.dataIn;
        wrPtr' := Inc(slots, wrPtr);
      }
      wrPtr, rdPtr, isFull, dataOut := wrPtr', rdPtr', isFull', dataOut';
      pending := After(pending, write, read, i.dataIn);
      assert queueMem[..] == if write then mem[old(wrPtr) := i.dataIn] else mem;
    }
  }

  /** Drives a queue with any inputs and records what its flags and output register show. */
  method Simulate<T(0)>(addrWidth: nat, zero: T, inputs: seq<Input<T>>)
    returns (accepted: seq<T>, delivered: seq<T>, full: bool, empty: bool)
    requires addrWidth >= 1
    ensures accepted == Accepted(Pow2(addrWidth), zero, inputs)
    ensures |delivered| <= |accepted| <= |delivered| + Pow2(addrWidth) && delivered == accepted[..|delivered|]
    ensures empty <==> delivered == accepted
    ensures |accepted| == |delivered| + Pow2(addrWidth) ==> full
    ensures full ==> |accepted| >= |delivered| + Pow2(addrWidth) - 1
  {
    var queue := new SubmissionQueue<T>(addrWidth, zero);
    accepted, delivered := [], [];
    for k := 0 to |inputs|
      invariant fresh(queue) && fresh(queue.queueMem) && queue.slots == Pow2(addrWidth) && queue.zero == zero
      invariant queue.Valid() && queue.Abs() == Run(Pow2(addrWidth), zero, inputs[..k])
      invariant accepted == Accepted(Pow2(addrWidth), zero, inputs[..k])
      invariant delivered == Delivered(Pow2(addrWidth), zero, inputs[..k])
    {
      assert inputs[..k + 1][..k] == inputs[..k];
      var i := inputs[k];
      var pushed, popped := i.wrEn && !queue.Full(), i.rdEn && !queue.Empty();
      queue.Tick(i);
      if !i.rstN {
        accepted, delivered := [], [];
      } else {
        accepted := accepted + if pushed then [i.dataIn] else [];
        delivered := delivered + if popped then [queue.dataOut] else [];
      }
    }
    assert inputs[..|inputs|] == inputs;
    full, empty := queue.Full(), queue.Empty();
    InOrderOnce(Pow2(addrWidth), zero, inputs);
  }
}
