/** Ledgers whose tables agree and whose free lists name each page once, and what keeps them so: clean collections,
    and then no page in use is ever handed out. */
module FtlSound {
  import opened PageStore
  import opened FtlMaps
  import opened FtlLedger

  /** Tables that agree, free lists without duplicates, free pages that hold nothing. */
  ghost predicate Sound(led: Ledger) {
    && Formed(led)
    && CoherentAt(|led.l2p|, led.l2p, led.valid, led.owner, led.blockValid, led.hot, led.cold)
    && NoDup(led.hot, led.cold)
  }

  lemma StartsSound(n: nat)
    requires WholeBlocks(n)
    ensures Sound(Starting(n))
  {
    var led := Starting(n);
    InDown(0, ZoneBorder(n));
    InDown(ZoneBorder(n), n);
    StartsCoherent(n, led.l2p, led.valid, led.owner, led.blockValid, led.hot, led.cold);
  }

  lemma TakenSound(led: Ledger, preferHot: bool)
    requires Sound(led) && Free(led) > 0
    ensures SafeTake(led, preferHot) && Sound(Taken(led, preferHot))
    ensures var t, p := Taken(led, preferHot), NextPage(led, preferHot); !t.valid[p] && !InFree(t.hot, t.cold, p)
  {
    hide CoherentAt;
    hide NoDup;
    TablesSized(led);
    hide Formed;
    var t, p := Taken(led, preferHot), NextPage(led, preferHot);
    if FromHot(led, preferHot) {
      assert led.hot == t.hot + [p];
    } else {
      assert led.cold == t.cold + [p];
    }
    TakenCoherent(|led.l2p|, led.l2p, led.valid, led.owner, led.blockValid, led.hot, led.cold, t.hot, t.cold, p);
  }

  lemma MappedSound(led: Ledger, lp: nat, p: nat)
    requires Sound(led) && lp < |led.l2p| && p < |led.l2p| && !led.valid[p] && !InFree(led.hot, led.cold, p)
    ensures -1 <= led.l2p[lp] < |led.l2p| && Sound(Mapped(led, lp, p, led.l2p[lp]))
  {
    RemapCoherent(|led.l2p|, led.l2p, led.valid, led.owner, led.blockValid, led.hot, led.cold, lp, p);
    hide CoherentAt;
    hide NoDup;
  }

  lemma HeatedSound(led: Ledger, lp: nat)
    requires Sound(led) && lp < |led.l2p|
    ensures Sound(Heated(led, lp))
  {
    hide CoherentAt;
    hide NoDup;
  }

  lemma OwnerOfValid(led: Ledger, p: nat)
    requires Sound(led) && p < |led.l2p| && led.valid[p]
    ensures 0 <= led.owner[p] < |led.l2p| && led.l2p[led.owner[p]] == p
  {
  }

  lemma MovedOneSound(led: Ledger, p: nat)
    requires Sound(led) && p < |led.l2p|
    ensures SafeMove(led, p) && Sound(MovedOne(led, p))
  {
    TablesSized(led);
    if led.valid[p] {
      OwnerOfValid(led, p);
      if Free(led) > 0 {
        TakenSound(led, false);
        MappedSound(Taken(led, false), led.owner[p], NextPage(led, false));
      }
    }
    hide Sound;
    hide Formed;
  }

  lemma {:induction false} MovedSound(led: Ledger, lo: nat, hi: nat)
    requires Sound(led) && lo <= hi <= |led.l2p|
    ensures SafeMoves(led, lo, hi) && Sound(MovedUpTo(led, lo, hi))
    decreases hi - lo
  {
    hide MovedOne;
    hide SafeMove;
    hide CoherentAt;
    hide NoDup;
    if lo < hi {
      MovedSound(led, lo, hi - 1);
      MovedOneSound(MovedUpTo(led, lo, hi - 1), hi - 1);
    }
  }

  lemma Ownerless(led: Ledger, lo: nat, hi: nat)
    requires Sound(led) && lo <= hi <= |led.l2p|
    ensures |led.valid| == |led.owner| == |led.l2p|
    ensures forall p :: lo <= p < hi && !led.valid[p] ==> led.owner[p] == -1
  {
  }

  /** Freeing a block none of whose pages is free. */
  lemma FreedSound(led: Ledger, b: nat)
    requires Sound(led) && b < |led.blockValid| && CleanBlock(led, b)
    ensures BlockStart(b) <= BlockEnd(|led.l2p|, b) <= |led.l2p|
    ensures Sound(FreedUpTo(led, BlockStart(b), BlockEnd(|led.l2p|, b)))
  {
    hide Agree;
    hide CountersBelow;
    hide NoDup;
    hide BlockStart;
    hide BlockEnd;
    hide FreedUpTo;
    hide InvalidIn;
    BlockFits(led, b);
    TablesSized(led);
    hide Formed;
    var n, lo, hi := |led.l2p|, BlockStart(b), BlockEnd(|led.l2p|, b);
    Ownerless(led, lo, hi);
    FreedLists(led, lo, hi, b);
    EraseNoDup(led.valid, led.hot, led.cold, lo, hi);
    InvalidInExactly(led.valid, lo, hi);
    assert forall p :: p in InvalidIn(led.valid, lo, hi) ==> 0 <= p < n && !led.valid[p];
  }

  /** A clean pass hands out no page in use and leaves a sound ledger. */
  lemma PassSound(led: Ledger, b: nat)
    requires Sound(led) && b < |led.blockValid| && CleanPass(led, b)
    ensures SafePass(led, b) && Sound(Pass(led, b))
  {
    BlockFits(led, b);
    var lo, hi := BlockStart(b), BlockEnd(|led.l2p|, b);
    MovedSound(led, lo, hi);
    var moved := MovedUpTo(led, lo, hi);
    TablesSized(led);
    TablesSized(moved);
    FreedSound(moved, b);
    var freed := FreedUpTo(moved, lo, hi);
    CounterZeroed(freed, b);
    hide Sound;
    hide Formed;
    hide CleanBlock;
  }

  lemma CounterZeroed(led: Ledger, b: nat)
    requires Sound(led) && b < |led.blockValid|
    ensures Sound(led.(blockValid := led.blockValid[b := 0]))
  {
    CounterZero(|led.l2p|, led.valid, led.blockValid, b);
    hide CountersBelow;
    hide Agree;
    hide NoDup;
  }

  lemma {:induction false} CollectedSound(led: Ledger, target: nat)
    requires Sound(led) && CleanCollection(led, target)
    ensures SafeCollection(led, target) && Sound(Collected(led, target))
    decreases target - Free(led)
  {
    hide CoherentAt;
    hide NoDup;
    hide Formed;
    hide Pass;
    hide Victim;
    hide CleanPass;
    hide SafePass;
    if Free(led) < target && Victim(led) >= 0 {
      PassSound(led, Victim(led));
      var t := Pass(led, Victim(led));
      if Free(led) < Free(t) < target {
        CollectedSound(t, target);
      }
    }
  }

  lemma SegmentSound(led: Ledger, lp: nat)
    requires Sound(led) && lp < |led.l2p| && CleanSegment(led, lp)
    ensures SafeSegment(led, lp) && Sound(SegmentWritten(led, lp).1)
  {
    hide CoherentAt;
    hide NoDup;
    hide Mapped;
    hide Taken;
    hide NextPage;
    hide Collected;
    hide CleanCollection;
    hide SafeCollection;
    hide Hotter;
    hide InFree;
    TablesSized(led);
    HeatedSound(led, lp);
    var heated, preferHot := Heated(led, lp), Hotter(led.heat[lp]) >= HOT_THRESHOLD;
    if Free(heated) == 0 {
      CollectedSound(heated, TargetFree(|led.l2p|));
    }
    var t := Ready(heated);
    if Free(t) > 0 {
      TakenSound(t, preferHot);
      MappedSound(Taken(t, preferHot), lp, NextPage(t, preferHot));
    }
  }

  lemma {:induction false} RangeSound(led: Ledger, offset: nat, size: nat)
    requires Sound(led) && offset + size <= |led.l2p| * PAGE_SIZE && CleanRange(led, offset, size)
    ensures SafeRange(led, offset, size) && Sound(RangeWritten(led, offset, size).2)
    decreases size
  {
    hide CoherentAt;
    hide NoDup;
    hide Formed;
    hide SegmentWritten;
    hide CleanSegment;
    hide SafeSegment;
    if size > 0 {
      InStore(|led.l2p|, offset, size);
      SegmentSound(led, offset / PAGE_SIZE);
      var s := SegmentWritten(led, offset / PAGE_SIZE);
      if s.0 {
        RangeSound(s.1, offset + FirstPart(offset, size), size - FirstPart(offset, size));
      }
    }
  }

  /** A write that collects cleanly, from a sound ledger, is given no page in use and leaves a sound ledger. */
  lemma WriteSound(led: Ledger, offset: nat, size: nat)
    requires Sound(led) && offset + size <= |led.l2p| * PAGE_SIZE && CleanWrite(led, offset, size)
    ensures SafeWrite(led, offset, size) && Sound(Written(led, offset, size).2)
  {
    hide CoherentAt;
    hide NoDup;
    hide Formed;
    hide RangeWritten;
    hide CleanRange;
    hide SafeRange;
    hide Collected;
    hide CleanCollection;
    hide SafeCollection;
    RangeSound(led, offset, size);
    var r := RangeWritten(led, offset, size);
    if r.0 && Free(r.2) < LowWatermark(|led.l2p|) {
      CollectedSound(r.2, TargetFree(|led.l2p|));
    }
  }
}
