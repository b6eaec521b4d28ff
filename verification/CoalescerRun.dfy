/** The staging buffer and the storage engine together: stage, flush, read. */
module CoalescerRun {
  import opened Ecc
  import opened PageStore
  import opened Splices
  import opened FtlMaps
  import opened Ftl
  import opened Coalescer
  import FtlLedger
  import FtlRuns

  datatype HostWrite = HostWrite(lba: nat, bytes: seq<Byte>)

  predicate Acceptable(w: HostWrite) {
    0 < |w.bytes| <= PAGE_SIZE
  }

  /** What each slot has accepted after some writes. */
  function AcceptedAfter(depth: nat, writes: seq<HostWrite>): (accepted: seq<seq<Push>>)
    requires depth > 0
    ensures |accepted| == depth
  {
    if writes == [] then seq(depth, _ => [])
    else
      var before, w := AcceptedAfter(depth, writes[..|writes| - 1]), writes[|writes| - 1];
      if Acceptable(w) then Accepted(before, depth, Clamped(w.lba, w.bytes)) else before
  }

  ghost predicate AddressesBelow(accepted: seq<seq<Push>>, capacity: nat) {
    forall i, k :: 0 <= i < |accepted| && 0 <= k < |accepted[i]| ==> accepted[i][k].lba < capacity
  }

  lemma {:induction false} AcceptedAddresses(depth: nat, writes: seq<HostWrite>, capacity: nat)
    requires depth > 0 && forall k :: 0 <= k < |writes| ==> writes[k].lba < capacity
    ensures AddressesBelow(AcceptedAfter(depth, writes), capacity)
  {
    if writes != [] {
      AcceptedAddresses(depth, writes[..|writes| - 1], capacity);
    }
  }

  lemma BasesFollow(depth: nat, staging: seq<CoalescePage>, accepted: seq<seq<Push>>, capacity: nat)
    requires depth > 0 && AllHold(depth, staging, accepted) && AddressesBelow(accepted, capacity)
    requires capacity % PAGE_SIZE == 0
    ensures BasesWithin(staging, capacity)
  {
    forall i | 0 <= i < |staging| && staging[i].dirty ensures staging[i].baseLba + PAGE_SIZE <= capacity {
      assert Holds(depth, i, staging[i], accepted[i]);
      assert accepted[i][0].lba < capacity;
    }
  }

  lemma {:induction false} CountDirtyAtMost(staging: seq<CoalescePage>)
    ensures CountDirty(staging) <= |staging|
  {
    if staging != [] {
      CountDirtyAtMost(staging[..|staging| - 1]);
    }
  }

  /** What a page reads as once everything staged has been flushed into an empty store. */
  function Expected(accepted: seq<seq<Push>>, depth: nat, base: nat): seq<Byte>
    requires |accepted| == depth > 0
    requires forall i, k :: 0 <= i < depth && 0 <= k < |accepted[i]| ==> Coalescer.Fits(accepted[i][k])
  {
    var i := SlotOf(depth, base);
    if accepted[i] != [] && PageStart(accepted[i][0].lba) == base then Overlay(accepted[i]) else ZeroPage()
  }

  lemma {:induction false} AcceptedFit(depth: nat, writes: seq<HostWrite>)
    requires depth > 0
    ensures forall i, k :: 0 <= i < depth && 0 <= k < |AcceptedAfter(depth, writes)[i]| ==>
              Coalescer.Fits(AcceptedAfter(depth, writes)[i][k])
  {
    if writes != [] {
      AcceptedFit(depth, writes[..|writes| - 1]);
    }
  }

  method PushAll(stage: BurstCoalescer, writes: seq<HostWrite>) returns (oks: seq<bool>)
    requires stage.Valid() && stage.accepted == AcceptedAfter(stage.depth, [])
    modifies stage, stage.staging
    ensures stage.Valid() && stage.accepted == AcceptedAfter(stage.depth, writes)
    ensures |oks| == |writes| && forall k :: 0 <= k < |writes| ==> (oks[k] <==> Acceptable(writes[k]))
  {
    hide AllHold;
    hide CountDirty;
    hide Accepted;
    hide Clamped;
    oks := [];
    for k := 0 to |writes|
      invariant stage.Valid() && stage.accepted == AcceptedAfter(stage.depth, writes[..k])
      invariant |oks| == k && forall j :: 0 <= j < k ==> (oks[j] <==> Acceptable(writes[j]))
    {
      assert writes[..k + 1][..k] == writes[..k];
      var ok := stage.PushWrite(writes[k].lba, writes[k].bytes);
      oks := oks + [ok];
    }
    assert writes[..|writes|] == writes;
  }

  /** Any writes staged, flushed into an empty store with room for them, and one page read back. */
  method StageFlushRead(depth: nat, capacity: nat, writes: seq<HostWrite>, base: nat, noise: nat -> nat -> Word)
    returns (oks: seq<bool>, bytes: seq<Byte>, ok: bool)
    requires depth > 0 && Whole(capacity)
    requires depth + FtlLedger.LowWatermark(capacity / PAGE_SIZE) <= capacity / PAGE_SIZE
    requires base % PAGE_SIZE == 0 && base + PAGE_SIZE <= capacity
    requires forall k :: 0 <= k < |writes| ==> writes[k].lba < capacity
    ensures |oks| == |writes| && forall k :: 0 <= k < |writes| ==> (oks[k] <==> Acceptable(writes[k]))
    ensures forall i, k :: 0 <= i < depth && 0 <= k < |AcceptedAfter(depth, writes)[i]| ==>
              Coalescer.Fits(AcceptedAfter(depth, writes)[i][k])
    ensures ok && bytes == Expected(AcceptedAfter(depth, writes), depth, base)
  {
    hide AcceptedAfter;
    hide AddressesBelow;
    hide AllHold;
    hide CountDirty;
    hide Overlay;
    hide FtlLedger.Formed;
    hide FtlLedger.Starting;
    hide Ftl.FTJController.Fresh;
    hide Ftl.FTJController.Contents;
    hide Ftl.FTJController.Shape;
    hide Ftl.FTJController.Valid;
    hide Ftl.FTJController.Readable;
    AcceptedFit(depth, writes);
    AcceptedAddresses(depth, writes, capacity);
    var stage := new BurstCoalescer(depth);
    NothingAccepted(depth);
    oks := PushAll(stage, writes);
    var ftl := new FTJController(capacity);
    RoomToFlush(ftl, capacity);
    FlushAll(stage, ftl, base);
    bytes, ok := ftl.Read(base, PAGE_SIZE, noise);
  }

  method FlushAll(stage: BurstCoalescer, ftl: FTJController, ghost base: nat)
    requires stage.Valid() && ftl.Valid() && ftl.sane && ftl.Fresh()
    requires ftl.Contents() == seq(ftl.capacity, _ => ZERO) && AddressesBelow(stage.accepted, ftl.capacity)
    requires ftl.FreeCount() >= stage.depth + ftl.gcLowWatermark
    requires base % PAGE_SIZE == 0 && base + PAGE_SIZE <= ftl.capacity
    requires forall i, k :: 0 <= i < stage.depth && 0 <= k < |stage.accepted[i]| ==>
               Coalescer.Fits(stage.accepted[i][k])
    modifies stage, stage.staging, ftl, ftl.memoryBuffer, ftl.eccBuffer
    ensures ftl.Valid() && ftl.intact && ftl.Fresh()
    ensures ftl.Contents()[base..base + PAGE_SIZE] == Expected(old(stage.accepted), stage.depth, base)
  {
    hide AllHold;
    hide CountDirty;
    hide BasesWithin;
    hide Flushed;
    hide FlushedStore;
    hide Programmed;
    hide CleanFlush;
    hide CleanUpTo;
    hide Overlay;
    hide AddressesBelow;
    hide FtlRuns.Fits;
    hide FtlLedger.Formed;
    hide Ftl.FTJController.Fresh;
    hide Ftl.FTJController.Contents;
    hide Ftl.FTJController.Shape;
    hide Ftl.FTJController.Valid;
    RoomToFlush(ftl, ftl.capacity);
    ghost var staged, accepted, blank, depth := stage.staging[..], stage.accepted, ftl.Contents(), stage.depth;
    BasesFollow(depth, staged, accepted, ftl.capacity);
    var flushed; ghost var cut;
    flushed, cut := stage.FlushToFTL(ftl, stage.depth);
    RoomToFlush(ftl, ftl.capacity);
    CountDirtyAtMost(staged[..cut]);
    CutIsAll(staged, depth, cut);
    FlushExactly(blank, depth, staged, accepted, base);
    assert blank[base..base + PAGE_SIZE] == ZeroPage();
  }

  lemma NothingAccepted(depth: nat)
    requires depth > 0
    ensures AcceptedAfter(depth, []) == seq(depth, _ => [])
  {
  }

  lemma RoomToFlush(ftl: FTJController, capacity: nat)
    requires ftl.Valid() && ftl.capacity == capacity
    ensures ftl.Shape() && capacity == ftl.pageCount * PAGE_SIZE
    ensures ftl.gcLowWatermark == FtlLedger.LowWatermark(capacity / PAGE_SIZE)
    ensures ftl.sane ==> ftl.intact
  {
  }

  lemma CutIsAll(staged: seq<CoalescePage>, depth: nat, cut: nat)
    requires |staged| == depth && cut <= depth && (cut == depth || CountDirty(staged[..cut]) == depth)
    ensures cut == depth
  {
    CountDirtyAtMost(staged[..cut]);
  }

  // ---------------------------------------------------------------- what reads back, without slots

  function PageNo(lba: nat): nat {
    lba / PAGE_SIZE
  }

  /** An accepted write that reaches the byte at an address; what runs over its page's end is lost. */
  predicate Reached(w: HostWrite, address: nat) {
    Acceptable(w) && PageNo(w.lba) == PageNo(address) && w.lba <= address < w.lba + |w.bytes|
  }

  /** The byte of the latest write that reaches the address, or zero. */
  function LatestByte(writes: seq<HostWrite>, address: nat): Byte {
    if writes == [] then ZERO
    else
      var last := writes[|writes| - 1];
      if Reached(last, address) then last.bytes[address - last.lba] else LatestByte(writes[..|writes| - 1], address)
  }

  /** No two different pages that are written to lie a multiple of the depth apart. */
  ghost predicate Apart(depth: nat, writes: seq<HostWrite>)
    requires depth > 0
  {
    forall j, k :: 0 <= j < |writes| && 0 <= k < |writes| && Acceptable(writes[j]) && Acceptable(writes[k])
                   && PageNo(writes[j].lba) != PageNo(writes[k].lba) ==>
      (PageNo(writes[j].lba) - PageNo(writes[k].lba)) % depth != 0
  }

  /** What a slot accepted came from accepted writes. */
  ghost predicate FromWrites(writes: seq<HostWrite>, p: Push) {
    exists k :: 0 <= k < |writes| && Acceptable(writes[k]) && writes[k].lba == p.lba
  }

  lemma {:induction false} AcceptedFrom(depth: nat, writes: seq<HostWrite>, i: nat, j: nat)
    requires depth > 0 && i < depth && j < |AcceptedAfter(depth, writes)[i]|
    ensures FromWrites(writes, AcceptedAfter(depth, writes)[i][j])
    ensures SlotOf(depth, AcceptedAfter(depth, writes)[i][j].lba) == i
  {
    hide SlotOf;
    if writes != [] {
      var n := |writes| - 1;
      var before: seq<seq<Push>> := AcceptedAfter(depth, writes[..n]);
      if j < |before[i]| {
        AcceptedFrom(depth, writes[..n], i, j);
        var p := before[i][j];
        var k :| 0 <= k < n && Acceptable(writes[..n][k]) && writes[..n][k].lba == p.lba;
        assert writes[k] == writes[..n][k];
      } else {
        assert Acceptable(writes[n]);
      }
    }
  }

  /** Pages that are apart have slots of their own. */
  lemma OwnSlots(depth: nat, writes: seq<HostWrite>, i: nat, j: nat, w: HostWrite)
    requires depth > 0 && Apart(depth, writes) && writes != [] && w == writes[|writes| - 1] && Acceptable(w)
    requires i == SlotOf(depth, w.lba) && j < |AcceptedAfter(depth, writes[..|writes| - 1])[i]|
    ensures PageNo(AcceptedAfter(depth, writes[..|writes| - 1])[i][j].lba) == PageNo(w.lba)
  {
    var n := |writes| - 1;
    AcceptedFrom(depth, writes[..n], i, j);
    var p := AcceptedAfter(depth, writes[..n])[i][j];
    var k :| 0 <= k < n && Acceptable(writes[..n][k]) && writes[..n][k].lba == p.lba;
    SlotsShared(depth, p.lba, w.lba);
    assert writes[k] == writes[..n][k];
  }

  /** The slot of a page holds, byte by byte, what was last written to the page. */
  lemma {:induction false} SlotHoldsPage(depth: nat, writes: seq<HostWrite>, base: nat, o: nat)
    requires depth > 0 && Apart(depth, writes) && base % PAGE_SIZE == 0 && o < PAGE_SIZE
    ensures var acc, i := AcceptedAfter(depth, writes), SlotOf(depth, base);
            && (forall k :: 0 <= k < |acc[i]| ==> Coalescer.Fits(acc[i][k]))
            && (if acc[i] != [] && PageStart(acc[i][0].lba) == base then Overlay(acc[i])[o] else ZERO)
               == LatestByte(writes, base + o)
    ensures var acc, i := AcceptedAfter(depth, writes), SlotOf(depth, base);
            acc[i] != [] && PageStart(acc[i][0].lba) == base ==>
              forall k :: 0 <= k < |acc[i]| ==> PageStart(acc[i][k].lba) == base
  {
    hide Overlay;
    hide SlotOf;
    AcceptedFit(depth, writes);
    if writes == [] {
    } else {
      var n, i := |writes| - 1, SlotOf(depth, base);
      var before, w := AcceptedAfter(depth, writes[..n]), writes[n];
      assert Apart(depth, writes[..n]);
      SlotHoldsPage(depth, writes[..n], base, o);
      if Acceptable(w) && SlotOf(depth, w.lba) == i {
        PushedByte(before[i], w, base, o);
        if before[i] != [] {
          OwnSlots(depth, writes, i, 0, w);
        }
      } else {
        ReachedInPage(depth, w, base, o);
      }
    }
  }

  lemma ReachedInPage(depth: nat, w: HostWrite, base: nat, o: nat)
    requires depth > 0 && base % PAGE_SIZE == 0 && o < PAGE_SIZE
    ensures Reached(w, base + o) ==> PageStart(w.lba) == base && SlotOf(depth, w.lba) == SlotOf(depth, base)
  {
    assert PageNo(base + o) == base / PAGE_SIZE;
  }

  /** One more push to a slot of one page. */
  lemma PushedByte(pushes: seq<Push>, w: HostWrite, base: nat, o: nat)
    requires (forall k :: 0 <= k < |pushes| ==> Coalescer.Fits(pushes[k])) && Acceptable(w)
    requires base % PAGE_SIZE == 0 && o < PAGE_SIZE
    ensures var p := Clamped(w.lba, w.bytes);
            && Coalescer.Fits(p)
            && Overlay(pushes + [p])[o]
               == (if p.lba % PAGE_SIZE <= o < p.lba % PAGE_SIZE + |p.bytes| then p.bytes[o - p.lba % PAGE_SIZE]
                   else if pushes == [] then ZERO else Overlay(pushes)[o])
    ensures PageStart(w.lba) == base ==>
              var p := Clamped(w.lba, w.bytes);
              && (Reached(w, base + o) <==> p.lba % PAGE_SIZE <= o < p.lba % PAGE_SIZE + |p.bytes|)
              && (Reached(w, base + o) ==> p.bytes[o - p.lba % PAGE_SIZE] == w.bytes[base + o - w.lba])
    ensures PageStart(w.lba) != base ==> !Reached(w, base + o)
  {
    hide Overlay;
    ClampedFits(w);
    OverlayMore(pushes, Clamped(w.lba, w.bytes), o);
    ReachedByte(w, base, o);
  }

  lemma ClampedFits(w: HostWrite)
    requires Acceptable(w)
    ensures Coalescer.Fits(Clamped(w.lba, w.bytes)) && Clamped(w.lba, w.bytes).lba == w.lba
  {
  }

  lemma OverlayMore(pushes: seq<Push>, p: Push, o: nat)
    requires (forall k :: 0 <= k < |pushes| ==> Coalescer.Fits(pushes[k])) && Coalescer.Fits(p) && o < PAGE_SIZE
    ensures Overlay(pushes + [p])[o]
         == if p.lba % PAGE_SIZE <= o < p.lba % PAGE_SIZE + |p.bytes| then p.bytes[o - p.lba % PAGE_SIZE]
            else if pushes == [] then ZERO else Overlay(pushes)[o]
  {
    hide Splice;
    assert (pushes + [p])[..|pushes|] == pushes;
    SplicedByte(Overlay(pushes), p.lba % PAGE_SIZE, p.bytes, o);
  }

  lemma SplicedByte(base: seq<Byte>, at: nat, data: seq<Byte>, o: nat)
    requires at + |data| <= |base| && o < |base|
    ensures Splice(base, at, data)[o] == if at <= o < at + |data| then data[o - at] else base[o]
  {
  }

  lemma ReachedByte(w: HostWrite, base: nat, o: nat)
    requires Acceptable(w) && base % PAGE_SIZE == 0 && o < PAGE_SIZE
    ensures PageStart(w.lba) == base ==>
              var p := Clamped(w.lba, w.bytes);
              && (Reached(w, base + o) <==> p.lba % PAGE_SIZE <= o < p.lba % PAGE_SIZE + |p.bytes|)
              && (Reached(w, base + o) ==> p.bytes[o - p.lba % PAGE_SIZE] == w.bytes[base + o - w.lba])
    ensures PageStart(w.lba) != base ==> !Reached(w, base + o)
  {
    assert PageNo(base + o) == base / PAGE_SIZE;
  }

  /** Any writes to pages that are apart, staged, flushed into an empty store with room for them, and one page read
      back: every byte is that of the latest write that reaches it, and zero where there was none. */
  method StagedReadsBack(depth: nat, capacity: nat, writes: seq<HostWrite>, base: nat, noise: nat -> nat -> Word)
    returns (bytes: seq<Byte>, ok: bool)
    requires depth > 0 && Whole(capacity)
    requires depth + FtlLedger.LowWatermark(capacity / PAGE_SIZE) <= capacity / PAGE_SIZE
    requires base % PAGE_SIZE == 0 && base + PAGE_SIZE <= capacity
    requires forall k :: 0 <= k < |writes| ==> writes[k].lba < capacity
    requires Apart(depth, writes)
    ensures ok && |bytes| == PAGE_SIZE && forall o :: 0 <= o < PAGE_SIZE ==> bytes[o] == LatestByte(writes, base + o)
  {
    hide AcceptedAfter;
    hide Overlay;
    hide Apart;
    var oks;
    oks, bytes, ok := StageFlushRead(depth, capacity, writes, base, noise);
    forall o | 0 <= o < PAGE_SIZE ensures bytes[o] == LatestByte(writes, base + o) {
      SlotHoldsPage(depth, writes, base, o);
    }
  }

  // ---------------------------------------------------------------- two pages in one slot

  /** A whole page written to address 0, and another to the next address that shares its slot. */
  function Colliding(depth: nat, x: seq<Byte>, y: seq<Byte>): seq<HostWrite> {
    [HostWrite(0, x), HostWrite(depth * PAGE_SIZE, y)]
  }

  lemma CollidingShare(depth: nat, x: seq<Byte>, y: seq<Byte>)
    requires depth > 0 && |x| == |y| == PAGE_SIZE
    ensures SlotOf(depth, 0) == SlotOf(depth, depth * PAGE_SIZE) == 0
    ensures AcceptedAfter(depth, Colliding(depth, x, y))[0] == [Push(0, x), Push(depth * PAGE_SIZE, y)]
  {
    var writes := Colliding(depth, x, y);
    assert depth * PAGE_SIZE / PAGE_SIZE == depth && depth * PAGE_SIZE % PAGE_SIZE == 0;
    assert writes[..1] == [writes[0]] && writes[..1][..0] == [];
    assert x[..PAGE_SIZE] == x && y[..PAGE_SIZE] == y;
    assert Clamped(0, x) == Push(0, x) && Clamped(depth * PAGE_SIZE, y) == Push(depth * PAGE_SIZE, y);
    assert AcceptedAfter(depth, []) == seq(depth, _ => []);
    var one := AcceptedAfter(depth, writes[..1]);
    assert one[0] == [Push(0, x)];
  }

  lemma OverlayOfTwo(a: Push, b: Push)
    requires Coalescer.Fits(a) && Coalescer.Fits(b) && |b.bytes| == PAGE_SIZE
    ensures Overlay([a, b]) == b.bytes
  {
    assert b.lba % PAGE_SIZE == 0;
    assert [a, b][..1] == [a];
    var under := Overlay([a]);
    assert Splice(under, 0, b.bytes) == b.bytes;
  }

  /** Both writes are accepted; then the first page reads as the second's bytes, and the second as zeros. */
  method CollisionRun(depth: nat, capacity: nat, x: seq<Byte>, y: seq<Byte>, noise: nat -> nat -> Word)
    returns (oks: seq<bool>, first: seq<Byte>, second: seq<Byte>)
    requires depth > 0 && Whole(capacity)
    requires depth + FtlLedger.LowWatermark(capacity / PAGE_SIZE) <= capacity / PAGE_SIZE
    requires |x| == |y| == PAGE_SIZE
    ensures oks == [true, true] && first == y && second == ZeroPage()
  {
    hide AcceptedAfter;
    hide Overlay;
    var writes := Colliding(depth, x, y);
    assert (depth + 1) * PAGE_SIZE <= capacity;
    assert depth * PAGE_SIZE % PAGE_SIZE == 0;
    CollidingShare(depth, x, y);
    var ok;
    oks, first, ok := StageFlushRead(depth, capacity, writes, 0, noise);
    var again;
    again, second, ok := StageFlushRead(depth, capacity, writes, depth * PAGE_SIZE, noise);
    OverlayOfTwo(Push(0, x), Push(depth * PAGE_SIZE, y));
  }
}
