/** Runs that collect again and again: half of a one-block store, rewritten. */
module FtlRewriteRun {
  import opened Ecc
  import opened PageStore
  import opened Splices
  import opened FtlMaps
  import opened FtlLedger
  import opened FtlSound
  import opened FtlRuns

  const PAGES: nat := 256
  const HALF: nat := 128
  const CAPACITY: nat := PAGES * PAGE_SIZE
  const HALF_BYTES: nat := HALF * PAGE_SIZE

  /** Beyond this many requests the victim's score could reach INT_MAX. */
  const LIMIT: nat := 8_000_000

  /** A sound ledger of one block. */
  ghost predicate Tidy(led: Ledger) {
    Sound(led) && |led.l2p| == PAGES
  }

  ghost predicate MappedBelow(led: Ledger, m: nat) {
    && |led.valid| == |led.l2p| == PAGES && m <= PAGES
    && (forall x :: 0 <= x < PAGES ==> (led.l2p[x] >= 0 <==> x < m))
    && CountValid(led.valid, 0, PAGES) == m
  }

  ghost predicate HeatAtMost(led: Ledger, h: nat) {
    forall x :: 0 <= x < |led.heat| ==> led.heat[x] <= h
  }

  /** With a free page a segment takes it, and only a page not mapped before adds to the valid ones. */
  lemma SegmentStep(led: Ledger, lp: nat)
    requires Tidy(led) && lp < PAGES && Free(led) > 0
    ensures lp < |led.heat|
    ensures var s, t := SegmentWritten(led, lp), SegmentWritten(led, lp).1;
            && s.0 && Tidy(t) && Free(t) == Free(led) - 1
            && t.heat == led.heat[lp := Hotter(led.heat[lp])]
            && t.l2p[lp] >= 0 && t.l2p == led.l2p[lp := t.l2p[lp]]
            && CountValid(t.valid, 0, PAGES) == CountValid(led.valid, 0, PAGES) + if led.l2p[lp] < 0 then 1 else 0
  {
    hide Sound;
    hide Taken;
    hide NextPage;
    hide Mapped;
    hide InFree;
    hide Formed;
    hide SegmentWritten;
    hide Hotter;
    SoundForms(led);
    TablesSized(led);
    HeatedSound(led, lp);
    var heated, preferHot := Heated(led, lp), Hotter(led.heat[lp]) >= HOT_THRESHOLD;
    TakenSound(heated, preferHot);
    var taken, p := Taken(heated, preferHot), NextPage(heated, preferHot);
    MappedSound(taken, lp, p);
    RemapCount(taken, lp, p);
    SegmentWithFree(led, lp);
    MappedKeeps(taken, lp, p, led.l2p[lp]);
  }

  lemma SoundForms(led: Ledger)
    requires Sound(led)
    ensures Formed(led)
  {
  }

  lemma RemapCount(led: Ledger, lp: nat, p: nat)
    requires Tidy(led) && lp < PAGES && p < PAGES && !led.valid[p]
    ensures -1 <= led.l2p[lp] < PAGES
    ensures var t := Mapped(led, lp, p, led.l2p[lp]);
            |t.valid| == PAGES
            && CountValid(t.valid, 0, PAGES) == CountValid(led.valid, 0, PAGES) + if led.l2p[lp] < 0 then 1 else 0
  {
    hide FreeInvalid;
    hide CountersBelow;
    hide NoDup;
    hide CountValid;
    CountUpdate(led.valid, 0, PAGES, p, true);
    if led.l2p[lp] >= 0 {
      CountUpdate(led.valid[p := true], 0, PAGES, led.l2p[lp], false);
    }
  }

  /** Either the first write, which maps page after page, or a later one, over pages that are mapped. */
  ghost predicate Filling(led: Ledger, lo: nat) {
    MappedBelow(led, lo) || MappedBelow(led, HALF)
  }

  lemma FillingStep(led: Ledger, t: Ledger, lo: nat, h: nat)
    requires lo < HALF && Filling(led, lo) && |led.l2p| == |t.l2p| == |t.valid| == |led.heat| == PAGES && h < LIMIT
    requires HeatAtMost(led, h + 1) && forall x :: lo <= x < PAGES ==> led.heat[x] <= h
    requires t.heat == led.heat[lo := Hotter(led.heat[lo])] && t.l2p[lo] >= 0 && t.l2p == led.l2p[lo := t.l2p[lo]]
    requires CountValid(t.valid, 0, PAGES) == CountValid(led.valid, 0, PAGES) + if led.l2p[lo] < 0 then 1 else 0
    ensures Filling(t, lo + 1)
    ensures HeatAtMost(t, h + 1) && forall x :: lo + 1 <= x < PAGES ==> t.heat[x] <= h
  {
    hide CountValid;
  }

  lemma {:induction false} RestWritten(led: Ledger, lo: nat, h: nat)
    requires Tidy(led) && lo <= HALF && Filling(led, lo) && Free(led) >= HALF - lo && h < LIMIT
    requires HeatAtMost(led, h + 1) && |led.heat| == PAGES && forall x :: lo <= x < PAGES ==> led.heat[x] <= h
    ensures Formed(led) && |led.l2p| == PAGES
    ensures var r := RangeWritten(led, lo * PAGE_SIZE, (HALF - lo) * PAGE_SIZE);
            && r.0 && Tidy(r.2) && MappedBelow(r.2, HALF) && Free(r.2) == Free(led) - (HALF - lo)
            && HeatAtMost(r.2, h + 1)
    ensures CleanRange(led, lo * PAGE_SIZE, (HALF - lo) * PAGE_SIZE)
    decreases HALF - lo
  {
    hide SegmentWritten;
    hide Formed;
    hide CoherentAt;
    hide NoDup;
    hide Hotter;
    hide CountValid;
    hide HeatAtMost;
    hide Filling;
    if lo < HALF {
      assert lo * PAGE_SIZE / PAGE_SIZE == lo && FirstPart(lo * PAGE_SIZE, (HALF - lo) * PAGE_SIZE) == PAGE_SIZE;
      SegmentStep(led, lo);
      var t := SegmentWritten(led, lo).1;
      TablesSized(t);
      FillingStep(led, t, lo, h);
      RestWritten(t, lo + 1, h);
      assert lo * PAGE_SIZE + PAGE_SIZE == (lo + 1) * PAGE_SIZE;
      assert (HALF - lo) * PAGE_SIZE - PAGE_SIZE == (HALF - (lo + 1)) * PAGE_SIZE;
    } else {
      Filled(led);
    }
  }

  lemma Filled(led: Ledger)
    requires Filling(led, HALF)
    ensures MappedBelow(led, HALF)
  {
  }

  // ---------------------------------------------------------------- the collection

  lemma {:induction false} InvalidCount(valid: seq<bool>, lo: nat, hi: nat)
    requires lo <= hi <= |valid|
    ensures |InvalidIn(valid, lo, hi)| == hi - lo - CountValid(valid, lo, hi)
    decreases hi - lo
  {
    if lo < hi {
      InvalidCount(valid, lo, hi - 1);
    }
  }

  lemma {:induction false} NothingMoves(led: Ledger, lo: nat, hi: nat)
    requires Formed(led) && lo <= hi <= |led.l2p| && Free(led) == 0
    ensures MovedUpTo(led, lo, hi) == led
    decreases hi - lo
  {
    hide Formed;
    if lo < hi {
      NothingMoves(led, lo, hi - 1);
      TablesSized(led);
    }
  }

  lemma OneBlock()
    ensures BlockStart(0) == 0 && BlockEnd(PAGES, 0) == PAGES
    ensures LowWatermark(PAGES) == 12 && TargetFree(PAGES) == 25
  {
  }

  lemma VictimIsTheBlock(led: Ledger, h: nat)
    requires Tidy(led) && MappedBelow(led, HALF) && HeatAtMost(led, h) && h <= LIMIT
    ensures Victim(led) == 0
  {
    hide Score;
    hide CoherentAt;
    hide NoDup;
    hide CountValid;
    hide Formed;
    TablesSized(led);
    ScoreBelow(led, h);
    assert VictimUpTo(led, 0) == -1;
    assert VictimUpTo(led, 1) == 0;
  }

  lemma ScoreBelow(led: Ledger, h: nat)
    requires Tidy(led) && MappedBelow(led, HALF) && HeatAtMost(led, h) && h <= LIMIT
    ensures 0 < |led.blockValid| && Score(led, 0) < INT_MAX
  {
    hide HotScore;
    hide CountValid;
    hide Agree;
    hide FreeInvalid;
    hide NoDup;
    OneBlock();
    HotScoreBound(led.owner, led.heat, 0, PAGES, h);
    assert led.blockValid[0] <= CountValid(led.valid, 0, PAGES);
    assert PAGES * h <= PAGES * LIMIT;
  }

  lemma PassFreesHalf(led: Ledger)
    requires Tidy(led) && MappedBelow(led, HALF) && Free(led) == 0
    ensures 0 < |led.blockValid|
    ensures var t := Pass(led, 0);
            Tidy(t) && MappedBelow(t, HALF) && Free(t) == PAGES - HALF && t.heat == led.heat
  {
    hide CoherentAt;
    hide NoDup;
    hide Formed;
    hide Pass;
    hide CleanPass;
    hide InvalidIn;
    hide CountValid;
    OneBlock();
    TablesSized(led);
    PassIs(led);
    InvalidCount(led.valid, 0, PAGES);
    CleanBlockIsEnough(led, 0);
    PassSound(led, 0);
  }

  lemma PassIs(led: Ledger)
    requires Tidy(led) && Free(led) == 0
    ensures 0 < |led.blockValid| && |led.valid| == PAGES
    ensures Pass(led, 0)
         == led.(hot := [], cold := InvalidIn(led.valid, 0, PAGES), blockValid := led.blockValid[0 := 0])
  {
    hide CoherentAt;
    hide NoDup;
    hide InvalidIn;
    hide MovedUpTo;
    hide FreedUpTo;
    OneBlock();
    TablesSized(led);
    NothingMoves(led, 0, PAGES);
    BlockFits(led, 0);
    FreedLists(led, 0, PAGES, 0);
    Ownerless(led, 0, PAGES);
    hide Formed;
  }

  /** The collection after a later write: one clean pass over the only block, which gives back the stale half. */
  lemma CollectedHalf(led: Ledger, h: nat)
    requires Tidy(led) && MappedBelow(led, HALF) && Free(led) == 0 && HeatAtMost(led, h) && h <= LIMIT
    ensures var t, target := Collected(led, TargetFree(PAGES)), TargetFree(PAGES);
            && Tidy(t) && MappedBelow(t, HALF) && Free(t) == PAGES - HALF && t.heat == led.heat
            && Passes(led, target) == 1 && CleanCollection(led, target)
  {
    hide CoherentAt;
    hide NoDup;
    hide CountValid;
    hide Pass;
    hide Score;
    hide Victim;
    OneBlock();
    VictimIsTheBlock(led, h);
    PassFreesHalf(led);
    NothingFreeIsClean(led, TargetFree(PAGES));
  }

  // ---------------------------------------------------------------- the run

  /** Between requests: nothing written yet, or the first half mapped and half of the pages free. */
  ghost predicate Rested(led: Ledger, h: nat) {
    && Tidy(led) && HeatAtMost(led, h)
    && ((MappedBelow(led, 0) && Free(led) == PAGES) || (MappedBelow(led, HALF) && Free(led) == PAGES - HALF))
  }

  /** A read, or a write of the first half. */
  predicate HalfOp(op: Op) {
    op.WriteOp? ==> op.offset == 0 && |op.data| == HALF_BYTES
  }

  lemma StartRested()
    ensures Rested(Starting(PAGES), 0)
  {
    var led := Starting(PAGES);
    StartsSound(PAGES);
    NoneValid(led.valid, 0, PAGES);
  }

  lemma {:induction false} NoneValid(valid: seq<bool>, lo: nat, hi: nat)
    requires lo <= hi <= |valid| && forall p :: lo <= p < hi ==> !valid[p]
    ensures CountValid(valid, lo, hi) == 0
    decreases hi - lo
  {
    if lo < hi {
      NoneValid(valid, lo, hi - 1);
    }
  }

  lemma HalfWrite(led: Ledger, h: nat)
    requires Rested(led, h) && h < LIMIT
    ensures Formed(led) && |led.l2p| == PAGES
    ensures var w := Written(led, 0, HALF_BYTES); w.0 && Rested(w.2, h + 1) && MappedBelow(w.2, HALF)
    ensures CleanWrite(led, 0, HALF_BYTES)
    ensures ClosingPasses(led, 0, HALF_BYTES) == if MappedBelow(led, 0) then 0 else 1
  {
    hide CoherentAt;
    hide NoDup;
    hide CountValid;
    hide Collected;
    hide Passes;
    hide CleanCollection;
    hide RangeWritten;
    hide CleanRange;
    OneBlock();
    TablesSized(led);
    RestWritten(led, 0, h);
    var r := RangeWritten(led, 0, HALF_BYTES).2;
    if Free(r) == 0 {
      CollectedHalf(r, h + 1);
    }
  }

  /** Any number of reads and rewrites of the first half, below the limit: every write is accepted, each after
      the first makes a collection of one pass, and all of these are clean. */
  lemma {:induction false} RewritesAreClean(ops: seq<Op>)
    requires |ops| <= LIMIT && forall k :: 0 <= k < |ops| ==> HalfOp(ops[k])
    ensures CleanRun(CAPACITY, ops) && NeverFull(CAPACITY, ops)
    ensures Rested(StoreRun(CAPACITY, ops).led, |ops|)
    ensures (exists k :: 0 <= k < |ops| && ops[k].WriteOp?) ==> MappedBelow(StoreRun(CAPACITY, ops).led, HALF)
  {
    hide Rested;
    hide MappedBelow;
    hide Splice;
    hide Written;
    hide CleanWrite;
    if ops == [] {
      StartRested();
    } else {
      var n := |ops| - 1;
      RewritesAreClean(ops[..n]);
      var st := StoreRun(CAPACITY, ops[..n]);
      if ops[n].WriteOp? {
        HalfWrite(st.led, n);
      } else {
        RestedLonger(st.led, n);
      }
    }
  }

  /** Each write after the first collects, in one pass. */
  lemma RewriteCollects(ops: seq<Op>, j: nat, k: nat)
    requires |ops| <= LIMIT && forall i :: 0 <= i < |ops| ==> HalfOp(ops[i])
    requires j < k < |ops| && ops[j].WriteOp? && ops[k].WriteOp?
    ensures ClosingPasses(StoreRun(CAPACITY, ops[..k]).led, 0, HALF_BYTES) == 1
  {
    hide ClosingPasses;
    hide CleanRun;
    hide NeverFull;
    hide StoreRun;
    hide MappedBelow;
    hide Tidy;
    hide CleanWrite;
    hide Written;
    assert ops[..k][j].WriteOp?;
    RewritesAreClean(ops[..k]);
    var led := StoreRun(CAPACITY, ops[..k]).led;
    HalfWrite(led, k);
    NotBoth(led);
  }

  lemma NotBoth(led: Ledger)
    requires MappedBelow(led, HALF)
    ensures !MappedBelow(led, 0)
  {
    hide CountValid;
  }

  lemma RestedLonger(led: Ledger, h: nat)
    requires Rested(led, h)
    ensures Rested(led, h + 1)
  {
  }

  lemma AllSafe(ops: seq<Op>)
    requires Whole(CAPACITY) && SafeRun(CAPACITY, ops)
    ensures forall k :: 0 <= k < |ops| ==> SafeThrough(CAPACITY, ops, k)
  {
    forall k | 0 <= k < |ops| ensures SafeThrough(CAPACITY, ops, k) {
      SafePrefix(CAPACITY, ops, k + 1);
    }
  }

  lemma WholeStore()
    ensures Whole(CAPACITY)
  {
  }

  /** So the engine, collecting as it goes, answers as the flat array does. */
  method Rewrites(ops: seq<Op>, noise: nat -> nat -> nat -> Word) returns (replies: seq<Reply>)
    requires |ops| <= LIMIT && forall k :: 0 <= k < |ops| ==> HalfOp(ops[k])
    ensures |replies| == |ops|
    ensures forall k :: 0 <= k < |ops| && ops[k].WriteOp? ==> replies[k] == FlatReplies(CAPACITY, ops)[k]
    ensures (forall k: nat, lp: nat :: QuietEnough(noise(k)(lp))) ==>
              forall k :: 0 <= k < |ops| ==> RightOrFailed(replies[k], FlatReplies(CAPACITY, ops)[k])
    ensures (forall k: nat, lp: nat :: Silent(noise(k)(lp))) ==> replies == FlatReplies(CAPACITY, ops)
  {
    hide QuietEnough;
    hide Silent;
    hide FlatReplies;
    hide StoreReplies;
    hide RightOrFailed;
    hide CleanRun;
    hide SafeRun;
    hide SafeThrough;
    hide Sound;
    hide NeverFull;
    hide HalfOp;
    hide StoreRun;
    hide MappedBelow;
    hide Whole;
    hide Rested;
    WholeStore();
    RewritesAreClean(ops);
    CleanRunIsSafe(CAPACITY, ops);
    NeverFullIsFlat(CAPACITY, ops);
    AllSafe(ops);
    replies := ReplayCollecting(CAPACITY, ops, noise);
  }
}
