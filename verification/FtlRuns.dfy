/** Whole runs of the storage engine against the flat byte array it is meant to look like. */
module FtlRuns {
  import opened Ecc
  import opened PageStore
  import opened Splices
  import opened FtlMaps
  import opened FtlLedger
  import opened FtlSound
  import opened Ftl

  datatype Op = WriteOp(offset: nat, data: seq<Byte>) | ReadOp(offset: nat, size: nat)

  datatype Reply = Wrote(ok: bool) | Got(ok: bool, bytes: seq<Byte>)

  function Blank(capacity: nat): (f: seq<Byte>)
    ensures |f| == capacity
  {
    seq(capacity, _ => ZERO)
  }

  function FlatAfter(f: seq<Byte>, op: Op): (g: seq<Byte>)
    ensures |g| == |f|
  {
    if op.WriteOp? && op.offset + |op.data| <= |f| then Splice(f, op.offset, op.data) else f
  }

  function FlatReply(f: seq<Byte>, op: Op): Reply {
    match op
    case WriteOp(offset, data) => Wrote(offset + |data| <= |f|)
    case ReadOp(offset, size) =>
      if offset + size <= |f| then Got(true, f[offset..offset + size]) else Got(false, [])
  }

  /** The flat array after a run that starts with zeros. */
  function FlatRun(capacity: nat, ops: seq<Op>): (f: seq<Byte>)
    ensures |f| == capacity
  {
    if ops == [] then Blank(capacity)
    else FlatAfter(FlatRun(capacity, ops[..|ops| - 1]), ops[|ops| - 1])
  }

  function FlatReplies(capacity: nat, ops: seq<Op>): (r: seq<Reply>)
    ensures |r| == |ops|
  {
    if ops == [] then []
    else FlatReplies(capacity, ops[..|ops| - 1])
           + [FlatReply(FlatRun(capacity, ops[..|ops| - 1]), ops[|ops| - 1])]
  }

  predicate Covers(capacity: nat, op: Op, i: nat) {
    op.WriteOp? && op.offset + |op.data| <= capacity && op.offset <= i < op.offset + |op.data|
  }

  /** Every byte is that of the latest accepted write over it, or zero if there was none. */
  lemma {:induction false} LatestWriteWins(capacity: nat, ops: seq<Op>, i: nat, k: nat)
    requires i < capacity
    requires k <= |ops| && forall j :: k <= j < |ops| ==> !Covers(capacity, ops[j], i)
    requires k > 0 ==> Covers(capacity, ops[k - 1], i)
    ensures FlatRun(capacity, ops)[i] == if k == 0 then ZERO else ops[k - 1].data[i - ops[k - 1].offset]
  {
    if ops != [] && k < |ops| {
      LatestWriteWins(capacity, ops[..|ops| - 1], i, k);
    }
  }

  /** How many pages a run programs at most. */
  function Cost(capacity: nat, ops: seq<Op>): nat {
    if ops == [] then 0 else Cost(capacity, ops[..|ops| - 1]) + CostOf(capacity, ops[|ops| - 1])
  }

  function CostOf(capacity: nat, op: Op): nat {
    if op.WriteOp? && op.offset + |op.data| <= capacity then Segments(op.offset, |op.data|) else 0
  }

  lemma {:induction false} CostOfPrefix(capacity: nat, ops: seq<Op>, k: nat)
    requires k <= |ops|
    ensures Cost(capacity, ops[..k]) <= Cost(capacity, ops)
  {
    if k < |ops| {
      CostOfPrefix(capacity, ops[..|ops| - 1], k);
      assert ops[..|ops| - 1][..k] == ops[..k];
    } else {
      assert ops[..k] == ops;
    }
  }

  /** One request against the engine. */
  method Serve(ftl: FTJController, op: Op, noise: nat -> nat -> Word) returns (reply: Reply)
    requires ftl.Valid() && ftl.sane && ftl.Fresh()
    requires ftl.FreeCount() >= CostOf(ftl.capacity, op) + ftl.gcLowWatermark
    modifies ftl, ftl.memoryBuffer, ftl.eccBuffer
    ensures ftl.Valid() && ftl.sane && ftl.Fresh()
    ensures ftl.FreeCount() == old(ftl.FreeCount()) - CostOf(ftl.capacity, op)
    ensures reply == FlatReply(old(ftl.Contents()), op)
    ensures ftl.Contents() == FlatAfter(old(ftl.Contents()), op)
  {
    hide Splice;
    hide Segments;
    hide FlatReply;
    hide Ftl.FTJController.Valid;
    hide Ftl.FTJController.Shape;
    hide Ftl.FTJController.Fresh;
    hide Ftl.FTJController.Contents;
    match op {
      case WriteOp(offset, data) =>
        reply := ServeWrite(ftl, offset, data);
      case ReadOp(offset, size) =>
        reply := ServeRead(ftl, offset, size, noise);
    }
  }

  method ServeWrite(ftl: FTJController, offset: nat, data: seq<Byte>) returns (reply: Reply)
    requires ftl.Valid() && ftl.sane && ftl.Fresh()
    requires ftl.FreeCount() >= CostOf(ftl.capacity, WriteOp(offset, data)) + ftl.gcLowWatermark
    modifies ftl, ftl.memoryBuffer, ftl.eccBuffer
    ensures ftl.Valid() && ftl.sane && ftl.Fresh()
    ensures ftl.FreeCount() == old(ftl.FreeCount()) - CostOf(ftl.capacity, WriteOp(offset, data))
    ensures reply == FlatReply(old(ftl.Contents()), WriteOp(offset, data))
    ensures ftl.Contents() == FlatAfter(old(ftl.Contents()), WriteOp(offset, data))
  {
    hide Splice;
    hide Segments;
    hide Ftl.FTJController.Coherent;
    hide Ftl.FTJController.Shape;
    hide Ftl.FTJController.Fresh;
    hide Ftl.FTJController.Contents;
    hide NoDup;
    hide Formed;
    hide Written;
    hide CleanWrite;
    hide CleanRange;
    hide ClosingPasses;
    hide Ftl.FTJController.NoVictim;
    var ok, done, passes := ftl.Write(offset, data);
    assert ok ==> data[..done] == data;
    reply := Wrote(ok);
  }

  method ServeRead(ftl: FTJController, offset: nat, size: nat, noise: nat -> nat -> Word) returns (reply: Reply)
    requires ftl.Valid() && ftl.sane && ftl.Fresh()
    ensures reply == FlatReply(ftl.Contents(), ReadOp(offset, size))
  {
    hide Ftl.FTJController.Coherent;
    hide Ftl.FTJController.Shape;
    hide Ftl.FTJController.Fresh;
    hide Ftl.FTJController.Contents;
    hide NoDup;
    var bytes, ok := ftl.Read(offset, size, noise);
    reply := Got(ok, bytes);
  }

  /** Every run that stays within the page budget answers exactly as the flat array does. */
  method Replay(capacity: nat, ops: seq<Op>, noise: nat -> nat -> nat -> Word) returns (replies: seq<Reply>)
    requires Whole(capacity)
    requires Cost(capacity, ops) + Max1(capacity / PAGE_SIZE / 20) <= capacity / PAGE_SIZE
    ensures replies == FlatReplies(capacity, ops)
  {
    hide NoDup;
    hide FlatAfter;
    hide FlatReply;
    hide Ftl.FTJController.Coherent;
    hide Ftl.FTJController.Fresh;
    hide Ftl.FTJController.Contents;
    var ftl := new FTJController(capacity);
    assert ftl.pageCount == capacity / PAGE_SIZE;
    assert ftl.gcLowWatermark == Max1(capacity / PAGE_SIZE / 20);
    hide Ftl.FTJController.Shape;
    replies := [];
    for k := 0 to |ops|
      invariant fresh(ftl) && fresh(ftl.memoryBuffer) && fresh(ftl.eccBuffer) && ftl.capacity == capacity
      invariant ftl.Valid() && ftl.sane && ftl.Fresh()
      invariant ftl.FreeCount() == ftl.pageCount - Cost(capacity, ops[..k])
      invariant replies == FlatReplies(capacity, ops[..k])
      invariant ftl.Contents() == FlatRun(capacity, ops[..k])
    {
      CostOfPrefix(capacity, ops, k + 1);
      assert ops[..k + 1][..k] == ops[..k];
      var reply := Serve(ftl, ops[k], noise(k));
      replies := replies + [reply];
    }
    assert ops[..|ops|] == ops;
  }

  // ---------------------------------------------------------------- runs that collect

  /** The flat array together with the engine's bookkeeping. */
  datatype Store = Store(flat: seq<Byte>, led: Ledger)

  ghost predicate Fits(st: Store) {
    Formed(st.led) && |st.flat| == |st.led.l2p| * PAGE_SIZE
  }

  predicate InRange(st: Store, op: Op) {
    op.WriteOp? && op.offset + |op.data| <= |st.flat|
  }

  /** A write stores as many bytes as the bookkeeping finds pages for. */
  function StoreAfter(st: Store, op: Op): (t: Store)
    requires Fits(st)
    ensures Fits(t) && |t.flat| == |st.flat|
  {
    if !InRange(st, op) then st
    else
      var w := Written(st.led, op.offset, |op.data|);
      Store(Splice(st.flat, op.offset, op.data[..w.1]), w.2)
  }

  function StoreReply(st: Store, op: Op): Reply
    requires Fits(st)
  {
    match op
    case WriteOp(offset, data) => Wrote(InRange(st, op) && Written(st.led, offset, |data|).0)
    case ReadOp(offset, size) =>
      if offset + size <= |st.flat| then Got(true, st.flat[offset..offset + size]) else Got(false, [])
  }

  function StoreRun(capacity: nat, ops: seq<Op>): (st: Store)
    requires Whole(capacity)
    ensures Fits(st) && |st.flat| == capacity
  {
    if ops == [] then Store(Blank(capacity), Starting(capacity / PAGE_SIZE))
    else StoreAfter(StoreRun(capacity, ops[..|ops| - 1]), ops[|ops| - 1])
  }

  function StoreReplies(capacity: nat, ops: seq<Op>): (r: seq<Reply>)
    requires Whole(capacity)
    ensures |r| == |ops|
  {
    if ops == [] then []
    else StoreReplies(capacity, ops[..|ops| - 1])
           + [StoreReply(StoreRun(capacity, ops[..|ops| - 1]), ops[|ops| - 1])]
  }

  ghost predicate CleanOp(st: Store, op: Op)
    requires Fits(st)
  {
    InRange(st, op) ==> CleanWrite(st.led, op.offset, |op.data|)
  }

  /** Every collection of the run is clean. */
  ghost predicate CleanRun(capacity: nat, ops: seq<Op>)
    requires Whole(capacity)
  {
    ops == [] || (CleanRun(capacity, ops[..|ops| - 1])
                  && CleanOp(StoreRun(capacity, ops[..|ops| - 1]), ops[|ops| - 1]))
  }

  ghost predicate SafeOp(st: Store, op: Op)
    requires Fits(st)
  {
    InRange(st, op) ==> SafeWrite(st.led, op.offset, |op.data|)
  }

  /** No request of the run is given a page in use. */
  ghost predicate SafeRun(capacity: nat, ops: seq<Op>)
    requires Whole(capacity)
  {
    ops == [] || (SafeRun(capacity, ops[..|ops| - 1])
                  && SafeOp(StoreRun(capacity, ops[..|ops| - 1]), ops[|ops| - 1]))
  }

  /** ... up to and with request k. */
  ghost predicate SafeThrough(capacity: nat, ops: seq<Op>, k: nat)
    requires Whole(capacity) && k < |ops|
  {
    SafeRun(capacity, ops[..k + 1])
  }

  lemma {:induction false} SafePrefix(capacity: nat, ops: seq<Op>, k: nat)
    requires Whole(capacity) && k <= |ops| && SafeRun(capacity, ops)
    ensures SafeRun(capacity, ops[..k])
  {
    hide SafeOp;
    if k < |ops| {
      SafePrefix(capacity, ops[..|ops| - 1], k);
      assert ops[..|ops| - 1][..k] == ops[..k];
    } else {
      assert ops[..k] == ops;
    }
  }

  /** A run whose collections are all clean is given no page in use. */
  lemma {:induction false} CleanRunIsSafe(capacity: nat, ops: seq<Op>)
    requires Whole(capacity) && CleanRun(capacity, ops)
    ensures SafeRun(capacity, ops) && Sound(StoreRun(capacity, ops).led)
  {
    hide Sound;
    hide Written;
    hide CleanWrite;
    hide SafeWrite;
    hide Splice;
    if ops == [] {
      StartsSound(capacity / PAGE_SIZE);
    } else {
      CleanRunIsSafe(capacity, ops[..|ops| - 1]);
      var st, op := StoreRun(capacity, ops[..|ops| - 1]), ops[|ops| - 1];
      if InRange(st, op) {
        WriteSound(st.led, op.offset, |op.data|);
      }
    }
  }

  /** No write of the run ran out of pages. */
  ghost predicate NeverFull(capacity: nat, ops: seq<Op>)
    requires Whole(capacity)
  {
    ops == [] || (&& NeverFull(capacity, ops[..|ops| - 1])
                  && var st, op := StoreRun(capacity, ops[..|ops| - 1]), ops[|ops| - 1];
                     InRange(st, op) ==> Written(st.led, op.offset, |op.data|).0)
  }

  /** As long as no write runs out of pages, the store is the flat array. */
  lemma {:induction false} NeverFullIsFlat(capacity: nat, ops: seq<Op>)
    requires Whole(capacity) && NeverFull(capacity, ops)
    ensures StoreRun(capacity, ops).flat == FlatRun(capacity, ops)
    ensures StoreReplies(capacity, ops) == FlatReplies(capacity, ops)
  {
    hide Splice;
    hide Written;
    hide Formed;
    if ops != [] {
      NeverFullIsFlat(capacity, ops[..|ops| - 1]);
      var st, op := StoreRun(capacity, ops[..|ops| - 1]), ops[|ops| - 1];
      if InRange(st, op) {
        assert op.data[..|op.data|] == op.data;
      }
    }
  }

  /** The right answer, or a read that reports failure. */
  predicate RightOrFailed(reply: Reply, right: Reply) {
    reply == right || (reply.Got? && !reply.ok)
  }

  ghost function StoreOf(ftl: FTJController): (st: Store)
    requires ftl.Shape()
    reads ftl, ftl.memoryBuffer
    ensures Fits(st) && |st.flat| == ftl.capacity
  {
    Store(ftl.Contents(), ftl.Led())
  }

  /** One request against the engine in any state. */
  method ServeAny(ftl: FTJController, op: Op, noise: nat -> nat -> Word) returns (reply: Reply)
    requires ftl.Valid()
    modifies ftl, ftl.memoryBuffer, ftl.eccBuffer
    ensures ftl.Valid()
    ensures ftl.Led() == StoreAfter(old(StoreOf(ftl)), op).led
    ensures ftl.sane <==> old(ftl.sane) && CleanOp(old(StoreOf(ftl)), op)
    ensures ftl.intact <==> old(ftl.intact) && SafeOp(old(StoreOf(ftl)), op)
    ensures ftl.intact ==> old(ftl.intact) && StoreOf(ftl) == StoreAfter(old(StoreOf(ftl)), op)
    ensures op.WriteOp? ==> reply == StoreReply(old(StoreOf(ftl)), op)
    ensures ftl.intact && (forall lp: nat :: QuietEnough(noise(lp))) ==>
              RightOrFailed(reply, StoreReply(old(StoreOf(ftl)), op))
    ensures ftl.intact && (forall lp: nat :: Silent(noise(lp))) ==> reply == StoreReply(old(StoreOf(ftl)), op)
  {
    hide Splice;
    hide Written;
    hide CleanWrite;
    hide SafeWrite;
    hide Formed;
    hide QuietEnough;
    hide Silent;
    hide Ftl.FTJController.Valid;
    hide Ftl.FTJController.Fresh;
    hide Ftl.FTJController.Contents;
    hide Ftl.FTJController.Readable;
    hide Ftl.FTJController.Shape;
    hide Ftl.FTJController.NoVictim;
    hide Ftl.FTJController.OnePageStored;
    ftl.ValidHasShape();
    ghost var st := StoreOf(ftl);
    match op {
      case WriteOp(offset, data) =>
        var ok, done, passes := ftl.Write(offset, data);
        ftl.ValidHasShape();
        reply := Wrote(ok);
      case ReadOp(offset, size) =>
        var bytes, ok := ftl.Read(offset, size, noise);
        SilentIsQuiet(noise);
        reply := Got(ok, bytes);
    }
  }

  lemma SilentIsQuiet(noise: nat -> nat -> Word)
    ensures (forall lp: nat :: Silent(noise(lp))) ==> forall lp: nat :: QuietEnough(noise(lp))
  {
    WeightZero(Zeros(WORD_BITS));
  }

  /** Any run, however it collects and even when the store is full. Every write is accepted or refused as the
      bookkeeping says; and up to the first request that is given a page in use the engine answers as the store does. */
  method ReplayCollecting(capacity: nat, ops: seq<Op>, noise: nat -> nat -> nat -> Word) returns (replies: seq<Reply>)
    requires Whole(capacity)
    ensures |replies| == |ops|
    ensures forall k :: 0 <= k < |ops| && ops[k].WriteOp? ==> replies[k] == StoreReplies(capacity, ops)[k]
    ensures (forall k: nat, lp: nat :: QuietEnough(noise(k)(lp))) ==>
              forall k :: 0 <= k < |ops| && SafeThrough(capacity, ops, k) ==>
                RightOrFailed(replies[k], StoreReplies(capacity, ops)[k])
    ensures (forall k: nat, lp: nat :: Silent(noise(k)(lp))) ==>
              forall k :: 0 <= k < |ops| && SafeThrough(capacity, ops, k) ==>
                replies[k] == StoreReplies(capacity, ops)[k]
    ensures SafeRun(capacity, ops) && (forall k: nat, lp: nat :: Silent(noise(k)(lp))) ==>
              replies == StoreReplies(capacity, ops)
  {
    hide QuietEnough;
    hide Silent;
    hide StoreAfter;
    hide StoreReply;
    hide CleanOp;
    hide SafeOp;
    hide Fits;
    hide Answered;
    hide RightOrFailed;
    hide StoreReplies;
    hide CleanRun;
    hide Ftl.FTJController.Valid;
    hide Ftl.FTJController.Fresh;
    hide Ftl.FTJController.Contents;
    hide Ftl.FTJController.Shape;
    var ftl := new FTJController(capacity);
    StartsAsStore(ftl, capacity);
    ghost var quiet := forall k: nat, lp: nat :: QuietEnough(noise(k)(lp));
    ghost var silent := forall k: nat, lp: nat :: Silent(noise(k)(lp));
    replies := [];
    for k := 0 to |ops|
      invariant fresh(ftl) && fresh(ftl.memoryBuffer) && fresh(ftl.eccBuffer) && ftl.capacity == capacity
      invariant ftl.Valid() && ftl.Shape() && |replies| == k
      invariant ftl.Led() == StoreRun(capacity, ops[..k]).led
      invariant ftl.intact <==> SafeRun(capacity, ops[..k])
      invariant ftl.intact ==> StoreOf(ftl) == StoreRun(capacity, ops[..k])
      invariant forall j :: 0 <= j < k ==> Answered(capacity, ops, j, replies[j], quiet, silent)
    {
      assert ops[..k + 1][..k] == ops[..k];
      SameLedger(StoreOf(ftl), StoreRun(capacity, ops[..k]), ops[k]);
      var reply := ServeAny(ftl, ops[k], noise(k));
      ftl.ValidHasShape();
      replies := replies + [reply];
      AnsweredIs(capacity, ops, k, reply, quiet, silent);
    }
    assert ops[..|ops|] == ops;
    AllAnswered(capacity, ops, replies, quiet, silent);
  }

  /** A write is answered as it should be; so is a read if nothing flips, and if little flips rightly or not at all,
      as long as no request up to then was given a page in use. */
  ghost predicate Answered(capacity: nat, ops: seq<Op>, k: nat, reply: Reply, quiet: bool, silent: bool)
    requires Whole(capacity) && k < |ops|
  {
    var right := StoreReply(StoreRun(capacity, ops[..k]), ops[k]);
    && (ops[k].WriteOp? ==> reply == right)
    && (SafeThrough(capacity, ops, k) ==> (quiet ==> RightOrFailed(reply, right)) && (silent ==> reply == right))
  }

  lemma AnsweredIs(capacity: nat, ops: seq<Op>, k: nat, reply: Reply, quiet: bool, silent: bool)
    requires Whole(capacity) && k < |ops|
    requires var right := StoreReply(StoreRun(capacity, ops[..k]), ops[k]);
             && (ops[k].WriteOp? ==> reply == right)
             && (SafeThrough(capacity, ops, k) ==>
                   (quiet ==> RightOrFailed(reply, right)) && (silent ==> reply == right))
    ensures Answered(capacity, ops, k, reply, quiet, silent)
  {
  }

  lemma {:induction false} ReplyAt(capacity: nat, ops: seq<Op>, k: nat)
    requires Whole(capacity) && k < |ops|
    ensures StoreReplies(capacity, ops)[k] == StoreReply(StoreRun(capacity, ops[..k]), ops[k])
  {
    hide StoreRun;
    hide Fits;
    hide StoreReply;
    if k < |ops| - 1 {
      ReplyAt(capacity, ops[..|ops| - 1], k);
      assert ops[..|ops| - 1][..k] == ops[..k];
    }
  }

  lemma AllAnswered(capacity: nat, ops: seq<Op>, replies: seq<Reply>, quiet: bool, silent: bool)
    requires Whole(capacity) && |replies| == |ops|
    requires forall k :: 0 <= k < |ops| ==> Answered(capacity, ops, k, replies[k], quiet, silent)
    ensures forall k :: 0 <= k < |ops| && ops[k].WriteOp? ==> replies[k] == StoreReplies(capacity, ops)[k]
    ensures quiet ==> forall k :: 0 <= k < |ops| && SafeThrough(capacity, ops, k) ==>
              RightOrFailed(replies[k], StoreReplies(capacity, ops)[k])
    ensures silent ==> forall k :: 0 <= k < |ops| && SafeThrough(capacity, ops, k) ==>
              replies[k] == StoreReplies(capacity, ops)[k]
    ensures silent && SafeRun(capacity, ops) ==> replies == StoreReplies(capacity, ops)
  {
    hide StoreReplies;
    hide StoreReply;
    hide StoreRun;
    hide SafeRun;
    hide RightOrFailed;
    forall k | 0 <= k < |ops|
      ensures StoreReplies(capacity, ops)[k] == StoreReply(StoreRun(capacity, ops[..k]), ops[k])
      ensures SafeRun(capacity, ops) ==> SafeThrough(capacity, ops, k)
    {
      ReplyAt(capacity, ops, k);
      if SafeRun(capacity, ops) {
        SafePrefix(capacity, ops, k + 1);
      }
    }
  }

  lemma StartsAsStore(ftl: FTJController, capacity: nat)
    requires Whole(capacity)
    requires ftl.Valid() && ftl.capacity == capacity
    requires ftl.Led() == Starting(ftl.pageCount) && ftl.Contents() == seq(ftl.capacity, _ => ZERO)
    ensures ftl.Shape() && StoreOf(ftl) == StoreRun(capacity, [])
  {
  }

  /** What becomes of the bookkeeping, and of a write, does not depend on the bytes stored. */
  lemma SameLedger(a: Store, b: Store, op: Op)
    requires Fits(a) && Fits(b) && a.led == b.led && |a.flat| == |b.flat|
    ensures StoreAfter(a, op).led == StoreAfter(b, op).led
    ensures CleanOp(a, op) <==> CleanOp(b, op)
    ensures SafeOp(a, op) <==> SafeOp(b, op)
    ensures op.WriteOp? ==> StoreReply(a, op) == StoreReply(b, op)
  {
  }
}
