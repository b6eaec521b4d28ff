/** A run of valid requests that ends in a read of another page's bytes. */
module FtlLosingRun {
  import opened Ecc
  import opened PageStore
  import opened Splices
  import opened FtlMaps
  import opened FtlLedger
  import opened FtlSound
  import opened Ftl
  import opened FtlRuns

  const PAGES: nat := 512
  const CAPACITY: nat := PAGES * PAGE_SIZE

  /** The logical page of the i-th write: page 0 again and again, 239 others once, page 0, ten new ones. */
  function Target(i: nat): (lp: nat)
    ensures lp < PAGES
  {
    if i < 249 then 0 else if i < 488 then i - 248 else if 488 < i < 499 then i - 249 else 0
  }

  /** The bookkeeping after one whole-page write. */
  function PageWritten(led: Ledger, lp: nat): (t: Ledger)
    requires Formed(led) && |led.l2p| == PAGES && lp < PAGES
    ensures Formed(t) && |t.l2p| == PAGES
  {
    Written(led, lp * PAGE_SIZE, PAGE_SIZE).2
  }

  function After(i: nat): (led: Ledger)
    ensures Formed(led) && |led.l2p| == PAGES
  {
    if i == 0 then Starting(PAGES) else PageWritten(After(i - 1), Target(i - 1))
  }

  /** With pages to spare a whole-page write takes the next page and collects nothing. */
  lemma Spared(led: Ledger, lp: nat)
    requires Formed(led) && |led.l2p| == PAGES && lp < PAGES && Free(led) > 25
    ensures |led.heat| == PAGES && -1 <= led.l2p[lp] < PAGES
    ensures var heated, preferHot := Heated(led, lp), Hotter(led.heat[lp]) >= HOT_THRESHOLD;
            PageWritten(led, lp) == Mapped(Taken(heated, preferHot), lp, NextPage(heated, preferHot), led.l2p[lp])
    ensures Written(led, lp * PAGE_SIZE, PAGE_SIZE).0 && Written(led, lp * PAGE_SIZE, PAGE_SIZE).1 == PAGE_SIZE
    ensures ClosingPasses(led, lp * PAGE_SIZE, PAGE_SIZE) == 0
  {
    hide Formed;
    TablesSized(led);
    OnePageRange(led, lp);
    SegmentWithFree(led, lp);
  }

  lemma OnePageRange(led: Ledger, lp: nat)
    requires Formed(led) && |led.l2p| == PAGES && lp < PAGES && Free(led) > 0
    ensures RangeWritten(led, lp * PAGE_SIZE, PAGE_SIZE) == (true, PAGE_SIZE, SegmentWritten(led, lp).1)
  {
    hide Formed;
    hide Collected;
    assert lp * PAGE_SIZE / PAGE_SIZE == lp && FirstPart(lp * PAGE_SIZE, PAGE_SIZE) == PAGE_SIZE;
    SegmentWithFree(led, lp);
  }

  /** Such a write is clean; it is given a page in use exactly if the next page is one. */
  lemma SparedSafe(led: Ledger, lp: nat)
    requires Formed(led) && |led.l2p| == PAGES && lp < PAGES && Free(led) > 25
    ensures |led.heat| == |led.valid| == PAGES && CleanWrite(led, lp * PAGE_SIZE, PAGE_SIZE)
    ensures SafeWrite(led, lp * PAGE_SIZE, PAGE_SIZE) <==>
              !led.valid[NextPage(Heated(led, lp), Hotter(led.heat[lp]) >= HOT_THRESHOLD)]
  {
    hide Formed;
    TablesSized(led);
    OnePageRange(led, lp);
    OnePageSafe(led, lp);
    SegmentWithFree(led, lp);
    hide CleanCollection;
    hide SafeCollection;
  }

  lemma OnePageSafe(led: Ledger, lp: nat)
    requires Formed(led) && |led.l2p| == PAGES && lp < PAGES && Free(led) > 0
    ensures |led.heat| == |led.valid| == PAGES && CleanRange(led, lp * PAGE_SIZE, PAGE_SIZE)
    ensures SafeRange(led, lp * PAGE_SIZE, PAGE_SIZE) <==>
              !led.valid[NextPage(Heated(led, lp), Hotter(led.heat[lp]) >= HOT_THRESHOLD)]
  {
    hide Formed;
    hide SegmentWritten;
    hide CleanCollection;
    hide SafeCollection;
    TablesSized(led);
    assert lp * PAGE_SIZE / PAGE_SIZE == lp && FirstPart(lp * PAGE_SIZE, PAGE_SIZE) == PAGE_SIZE;
  }

  /** A segment written to the page p that is next on the list it takes from. */
  ghost predicate Put(led: Ledger, lp: nat, p: nat, t: Ledger) {
    && lp < |led.l2p| == |led.valid| == |led.owner| == |led.heat| == PAGES && p < PAGES && |led.blockValid| == 2
    && led.l2p[lp] < PAGES && led.heat[lp] < 1000
    && t.l2p == led.l2p[lp := p] && t.heat == led.heat[lp := led.heat[lp] + 1]
    && t.valid == ValidAfter(led.valid, p, led.l2p[lp])
    && t.owner == OwnerAfter(led.owner, lp, p, led.l2p[lp])
    && t.blockValid == CountersAfter(led.blockValid, p, led.l2p[lp])
  }

  lemma PutCold(led: Ledger, lp: nat)
    requires Formed(led) && |led.l2p| == PAGES && lp < PAGES && led.cold != []
    requires |led.heat| == PAGES && led.heat[lp] < 3
    ensures var t := SegmentWritten(led, lp).1;
            && 0 <= Last(led.cold) < PAGES && Put(led, lp, Last(led.cold), t)
            && t.hot == led.hot && t.cold == led.cold[..|led.cold| - 1]
  {
    hide Formed;
    hide Mapped;
    hide ValidAfter;
    hide OwnerAfter;
    TablesSized(led);
    SegmentWithFree(led, lp);
    PutIs(led, lp, false);
  }

  lemma PutHot(led: Ledger, lp: nat)
    requires Formed(led) && |led.l2p| == PAGES && lp < PAGES && led.hot != []
    requires |led.heat| == PAGES && 3 <= led.heat[lp] < 1000
    ensures var t := SegmentWritten(led, lp).1;
            && 0 <= Last(led.hot) < PAGES && Put(led, lp, Last(led.hot), t)
            && t.cold == led.cold && t.hot == led.hot[..|led.hot| - 1]
  {
    hide Formed;
    hide Mapped;
    hide ValidAfter;
    hide OwnerAfter;
    TablesSized(led);
    SegmentWithFree(led, lp);
    PutIs(led, lp, true);
  }

  lemma PutIs(led: Ledger, lp: nat, preferHot: bool)
    requires Formed(led) && |led.l2p| == PAGES && lp < PAGES && Free(led) > 0
    requires |led.heat| == PAGES && led.heat[lp] < 1000
    ensures -1 <= led.l2p[lp] < PAGES
    ensures var heated := Heated(led, lp);
            var p := NextPage(heated, preferHot);
            var t := Mapped(Taken(heated, preferHot), lp, p, led.l2p[lp]);
            && Put(led, lp, p, t)
            && t.hot == Taken(heated, preferHot).hot && t.cold == Taken(heated, preferHot).cold
  {
    hide ValidAfter;
    hide OwnerAfter;
    hide CountersAfter;
    TablesSized(led);
  }

  lemma DownPops(lo: nat, hi: nat)
    requires lo < hi
    ensures Last(Down(lo, hi)) == lo && Down(lo, hi)[..hi - lo - 1] == Down(lo + 1, hi)
  {
  }

  // ---------------------------------------------------------------- first part: page 0 alone

  /** After k writes of page 0: three went to the cold zone, the others to the hot one. */
  ghost predicate Rewritten(led: Ledger, k: nat) {
    var m := if k <= 3 then k else 3;
    var cur := if k == 0 then -1 else if k <= 3 then 255 + k else k - 4;
    && k <= 249 && |led.l2p| == |led.valid| == |led.owner| == |led.heat| == PAGES
    && led.hot == Down(k - m, 256) && led.cold == Down(256 + m, PAGES)
    && (forall x :: 0 <= x < PAGES ==> led.l2p[x] == (if x == 0 then cur else -1))
    && (forall p :: 0 <= p < PAGES ==> (led.valid[p] <==> p == cur) && led.owner[p] == (if p == cur then 0 else -1))
    && (forall x :: 0 <= x < PAGES ==> led.heat[x] == (if x == 0 then k else 0))
    && led.blockValid == [if k >= 4 then 1 else 0, if 1 <= k <= 3 then 1 else 0]
  }

  lemma RewrittenStep(led: Ledger, k: nat)
    requires Formed(led) && Rewritten(led, k) && k < 249
    ensures Rewritten(SegmentWritten(led, 0).1, k + 1) && Free(led) == PAGES - k
  {
    hide Formed;
    hide SegmentWritten;
    hide Down;
    if k < 3 {
      PutCold(led, 0);
      DownPops(256 + k, PAGES);
    } else {
      PutHot(led, 0);
      DownPops(k - 3, 256);
    }
  }

  lemma {:induction false} FirstPart249(k: nat)
    requires k <= 249
    ensures Rewritten(After(k), k)
  {
    hide Rewritten;
    hide Formed;
    if k == 0 {
      StartsRewritten();
    } else {
      FirstPart249(k - 1);
      RewrittenStep(After(k - 1), k - 1);
      Spared(After(k - 1), 0);
      SegmentWithFree(After(k - 1), 0);
    }
  }

  lemma StartsRewritten()
    ensures Rewritten(Starting(PAGES), 0)
  {
  }

  // ---------------------------------------------------------------- second part: 239 other pages

  /** Then j other pages have been written once, all to the cold zone. */
  ghost predicate Spread(led: Ledger, j: nat) {
    && j <= 239 && |led.l2p| == |led.valid| == |led.owner| == |led.heat| == PAGES
    && led.hot == Down(246, 256) && led.cold == Down(259 + j, PAGES)
    && (forall x :: 0 <= x < PAGES ==> led.l2p[x] == (if x == 0 then 245 else if x <= j then 258 + x else -1))
    && (forall p :: 0 <= p < PAGES ==>
          && (led.valid[p] <==> p == 245 || 259 <= p < 259 + j)
          && led.owner[p] == (if p == 245 then 0 else if 259 <= p < 259 + j then p - 258 else -1))
    && (forall x :: 0 <= x < PAGES ==> led.heat[x] == (if x == 0 then 249 else if x <= j then 1 else 0))
    && led.blockValid == [1, j]
  }

  lemma SpreadStep(led: Ledger, j: nat)
    requires Formed(led) && Spread(led, j) && j < 239
    ensures Spread(SegmentWritten(led, j + 1).1, j + 1) && Free(led) == 263 - j
  {
    hide Formed;
    hide SegmentWritten;
    hide Down;
    PutCold(led, j + 1);
    DownPops(259 + j, PAGES);
  }

  lemma SpreadBegins(led: Ledger)
    requires Rewritten(led, 249)
    ensures Spread(led, 0)
  {
  }

  lemma {:induction false} SecondPart(j: nat)
    requires j <= 238
    ensures Spread(After(249 + j), j)
  {
    hide Spread;
    hide Rewritten;
    hide Formed;
    if j == 0 {
      FirstPart249(249);
      SpreadBegins(After(249));
    } else {
      SecondPart(j - 1);
      SpreadStep(After(248 + j), j - 1);
      Spared(After(248 + j), j);
      SegmentWithFree(After(248 + j), j);
    }
  }

  // ---------------------------------------------------------------- the collection

  function Up(k: nat): (s: seq<int>)
    ensures |s| == k && forall i :: 0 <= i < k ==> s[i] == i
  {
    seq(k, i => i)
  }

  lemma TwoBlocks(led: Ledger)
    requires Formed(led) && |led.l2p| == PAGES
    ensures |led.blockValid| == 2 && BlockStart(0) == 0 && BlockEnd(PAGES, 0) == 256
    ensures BlockStart(1) == 256 && BlockEnd(PAGES, 1) == PAGES
    ensures LowWatermark(PAGES) == 25 && TargetFree(PAGES) == 51
  {
    TablesSized(led);
  }

  lemma {:induction false} OneOwner(led: Ledger, k: nat)
    requires Spread(led, 239) && k <= 256
    ensures HotScore(led.owner, led.heat, 0, k) == if k > 245 then 249 else 0
  {
    if k > 0 {
      OneOwner(led, k - 1);
    }
  }

  /** Block 0 holds one valid page, so it is the victim, though ten of its pages are free. */
  lemma BlockZeroIsVictim(led: Ledger)
    requires Formed(led) && Spread(led, 239)
    ensures Victim(led) == 0
  {
    hide HotScore;
    hide Formed;
    TwoBlocks(led);
    ScoreZero(led);
    ScoreOne(led);
    hide Score;
    assert VictimUpTo(led, 0) == -1;
    assert VictimUpTo(led, 1) == 0;
    assert VictimUpTo(led, 2) == 0;
  }

  lemma ScoreZero(led: Ledger)
    requires Formed(led) && Spread(led, 239)
    ensures |led.blockValid| == 2 && Score(led, 0) == 265
  {
    hide HotScore;
    TwoBlocks(led);
    OneOwner(led, 256);
  }

  lemma ScoreOne(led: Ledger)
    requires Formed(led) && Spread(led, 239)
    ensures |led.blockValid| == 2 && Score(led, 1) >= 3824
  {
    hide HotScore;
    TwoBlocks(led);
    HotScoreBound(led.owner, led.heat, 256, PAGES, 249);
  }

  /** Page 245 is the only one to move. */
  lemma {:induction false} OnlyOneMoves(led: Ledger, k: nat)
    requires Formed(led) && Spread(led, 239) && k <= 256
    ensures Free(led) > 0
    ensures MovedUpTo(led, 0, k) == if k <= 245 then led else MovedOne(led, 245)
    decreases k
  {
    hide Formed;
    hide MovedOne;
    hide Down;
    if k > 0 {
      OnlyOneMoves(led, k - 1);
      if k < 246 {
        NothingToMove(led, k - 1);
      } else if k > 246 {
        MovedIs(led);
        NothingToMove(MovedOne(led, 245), k - 1);
      }
    }
  }

  lemma MovedIs(led: Ledger)
    requires Formed(led) && Spread(led, 239)
    ensures var t := MovedOne(led, 245);
            && t.heat == led.heat && t.hot == led.hot && t.cold == Down(499, PAGES)
            && t.l2p == led.l2p[0 := 498] && t.valid == led.valid[498 := true][245 := false]
            && t.owner == led.owner[498 := 0][245 := -1]
  {
    hide Formed;
    hide Down;
    hide Mapped;
    DownPops(498, PAGES);
    var t := Taken(led, false);
    assert NextPage(led, false) == 498;
    MappedKeeps(t, 0, 498, 245);
  }

  lemma {:induction false} AllInvalid(valid: seq<bool>, k: nat)
    requires k <= |valid| && forall p :: 0 <= p < k ==> !valid[p]
    ensures InvalidIn(valid, 0, k) == Up(k)
    decreases k
  {
    if k > 0 {
      AllInvalid(valid, k - 1);
      assert Up(k - 1) + [k - 1] == Up(k);
    }
  }

  /** After the collection: the ten pages 246..255 are on both lists. */
  ghost predicate Doubled(led: Ledger) {
    && |led.l2p| == |led.valid| == |led.heat| == PAGES
    && led.hot == Down(246, 256) && led.cold == Down(499, PAGES) + Up(256)
    && (forall x :: 0 <= x < PAGES ==> led.l2p[x] == (if x == 0 then 498 else if x <= 239 then 258 + x else -1))
    && (forall p :: 0 <= p < PAGES ==> (led.valid[p] <==> 259 <= p <= 498))
    && (forall x :: 0 <= x < PAGES ==> led.heat[x] == (if x == 0 then 249 else if x <= 239 then 1 else 0))
  }

  lemma PassDoubles(led: Ledger)
    requires Formed(led) && Spread(led, 239)
    ensures |led.blockValid| == 2 && Doubled(Pass(led, 0)) && !CleanPass(led, 0)
  {
    hide Formed;
    hide Down;
    hide MovedUpTo;
    hide FreedUpTo;
    hide MovedOne;
    hide InvalidIn;
    TwoBlocks(led);
    OnlyOneMoves(led, 256);
    MovedIs(led);
    var m := MovedOne(led, 245);
    TablesSized(m);
    BlockFits(m, 0);
    FreedLists(m, 0, 256, 0);
    AllInvalid(m.valid, 256);
    assert m.hot[0] == 255;
    assert InFree(m.hot, m.cold, 255);
  }

  lemma CollectionDoubles(led: Ledger)
    requires Formed(led) && Spread(led, 239)
    ensures Doubled(Collected(led, 51)) && !CleanCollection(led, 51)
  {
    hide Formed;
    hide Down;
    hide Pass;
    hide CleanPass;
    hide Victim;
    TwoBlocks(led);
    BlockZeroIsVictim(led);
    PassDoubles(led);
    CleanStep(led, 51);
  }

  lemma WriteThatCollects()
    ensures Doubled(After(488)) && !CleanWrite(After(487), 239 * PAGE_SIZE, PAGE_SIZE)
    ensures Written(After(487), 239 * PAGE_SIZE, PAGE_SIZE).0
  {
    hide Formed;
    hide Collected;
    hide CleanCollection;
    hide Spread;
    hide SegmentWritten;
    hide Doubled;
    hide CleanRange;
    hide RangeWritten;
    var led := After(487);
    TwoBlocks(led);
    SecondPart(238);
    SpreadStep(led, 238);
    OnePageRange(led, 239);
    var r := SegmentWritten(led, 239).1;
    SpreadFree(r);
    CollectionDoubles(r);
  }

  lemma SpreadFree(led: Ledger)
    requires Spread(led, 239)
    ensures Free(led) == 24
  {
  }

  // ---------------------------------------------------------------- the loss

  /** Then page 0 takes page 246 off one list, and i new pages take 255 downwards off the other. */
  ghost predicate Overrun(led: Ledger, i: nat) {
    && i <= 10 && |led.l2p| == |led.valid| == |led.heat| == PAGES
    && led.hot == Down(247, 256) && led.cold == Down(499, PAGES) + Up(256 - i)
    && (forall x :: 0 <= x < PAGES ==>
          led.l2p[x] == if x == 0 then 246 else if x <= 239 then 258 + x else if x < 240 + i then 495 - x else -1)
    && (forall p :: 0 <= p < PAGES ==> (led.valid[p] <==> p == 246 || 259 <= p < 498 || 256 - i <= p < 256))
    && (forall x :: 0 <= x < PAGES ==> led.heat[x] == if x == 0 then 250 else if x < 240 + i then 1 else 0)
  }

  lemma OverrunBegins(led: Ledger)
    requires Formed(led) && Doubled(led)
    ensures Overrun(SegmentWritten(led, 0).1, 0) && Free(led) == 279
  {
    hide Formed;
    hide SegmentWritten;
    hide Down;
    hide Up;
    TwoBlocks(led);
    PutHot(led, 0);
    DownPops(246, 256);
  }

  lemma OverrunStep(led: Ledger, i: nat)
    requires Formed(led) && Overrun(led, i) && i < 10
    ensures Overrun(SegmentWritten(led, 240 + i).1, i + 1) && Free(led) == 278 - i
  {
    hide Formed;
    hide SegmentWritten;
    hide Down;
    hide Up;
    TwoBlocks(led);
    PutCold(led, 240 + i);
    assert led.cold[..|led.cold| - 1] == Down(499, PAGES) + Up(255 - i);
  }

  lemma {:induction false} ThirdPart(i: nat)
    requires i <= 10
    ensures Overrun(After(489 + i), i)
  {
    hide Overrun;
    hide Doubled;
    hide Formed;
    if i == 0 {
      WriteThatCollects();
      OverrunBegins(After(488));
      Spared(After(488), 0);
      SegmentWithFree(After(488), 0);
    } else {
      ThirdPart(i - 1);
      OverrunStep(After(488 + i), i - 1);
      Spared(After(488 + i), 239 + i);
      SegmentWithFree(After(488 + i), 239 + i);
    }
  }

  // ---------------------------------------------------------------- which write is to blame

  /** Up to the write that collects uncleanly nothing is wrong with the ledger at all. */
  lemma {:induction false} SoundSoFar(i: nat)
    requires i <= 487
    ensures Sound(After(i))
  {
    hide Sound;
    hide Formed;
    hide CleanWrite;
    hide SafeWrite;
    hide Written;
    if i == 0 {
      StartsSound(PAGES);
    } else {
      SoundSoFar(i - 1);
      Accepted(i - 1);
      SparedSafe(After(i - 1), Target(i - 1));
      WriteSound(After(i - 1), Target(i - 1) * PAGE_SIZE, PAGE_SIZE);
    }
  }

  /** Its one pass takes page 498, which is free. */
  lemma CollectingWriteIsSafe()
    ensures SafeWrite(After(487), 239 * PAGE_SIZE, PAGE_SIZE)
  {
    hide Formed;
    hide Sound;
    hide Spread;
    hide SegmentWritten;
    hide RangeWritten;
    hide SafeRange;
    hide SafePass;
    hide Pass;
    hide Victim;
    hide CleanRange;
    hide CleanSegment;
    var led := After(487);
    SoundSoFar(487);
    TwoBlocks(led);
    SecondPart(238);
    SpreadStep(led, 238);
    OnePageRange(led, 239);
    OnePageSafe(led, 239);
    RangeSound(led, 239 * PAGE_SIZE, PAGE_SIZE);
    var r := SegmentWritten(led, 239).1;
    SpreadFree(r);
    TwoBlocks(r);
    BlockZeroIsVictim(r);
    PassIsSafe(r, 0);
    PassDoubles(r);
    DoubledFree(Pass(r, 0));
    SafeStep(r, 51);
  }

  lemma PassIsSafe(led: Ledger, b: nat)
    requires Sound(led) && Formed(led) && b < |led.blockValid|
    ensures SafePass(led, b)
  {
    hide Sound;
    hide Formed;
    BlockFits(led, b);
    MovedSound(led, BlockStart(b), BlockEnd(|led.l2p|, b));
  }

  lemma DoubledFree(led: Ledger)
    requires Doubled(led)
    ensures Free(led) == 279
  {
  }

  /** The last write alone is given a page in use: page 246, which page 0 has just been given off the other list. */
  lemma OnlyTheLastSteals(i: nat)
    requires i < 499
    ensures SafeWrite(After(i), Target(i) * PAGE_SIZE, PAGE_SIZE) <==> i < 498
  {
    hide Formed;
    hide Sound;
    hide SafeWrite;
    hide CleanWrite;
    hide Doubled;
    hide Down;
    hide Up;
    hide Free;
    hide NextPage;
    var led := After(i);
    if i < 487 {
      SoundSoFar(i);
      Accepted(i);
      SparedSafe(led, Target(i));
      WriteSound(led, Target(i) * PAGE_SIZE, PAGE_SIZE);
    } else if i == 487 {
      CollectingWriteIsSafe();
    } else {
      Accepted(i);
      SparedSafe(led, Target(i));
      if i == 488 {
        WriteThatCollects();
        NextDoubled(led);
      } else {
        ThirdPart(i - 489);
        NextOverrun(led, i - 489);
      }
    }
  }

  lemma NextDoubled(led: Ledger)
    requires Formed(led) && Doubled(led)
    ensures NextPage(Heated(led, 0), true) == 246 && !led.valid[246] && led.heat[0] == 249
  {
    hide Formed;
    hide Up;
    hide Down;
    DownPops(246, 256);
  }

  lemma NextOverrun(led: Ledger, i: nat)
    requires Formed(led) && Overrun(led, i) && i < 10
    ensures Free(Heated(led, 240 + i)) > 0 && NextPage(Heated(led, 240 + i), false) == 255 - i
    ensures led.valid[255 - i] <==> i == 9
    ensures led.heat[240 + i] == 0
  {
    hide Formed;
    hide Down;
    assert Last(led.cold) == 255 - i;
  }

  // ---------------------------------------------------------------- the run against the engine

  const ONE: Byte := Byte(true, false, false, false, false, false, false, false)

  /** Page 0 is always written with ones, the other pages with zeros. */
  function Fill(i: nat): (data: seq<Byte>)
    ensures |data| == PAGE_SIZE
  {
    seq(PAGE_SIZE, _ => if Target(i) == 0 then ONE else ZERO)
  }

  function LosingWrites(): (ops: seq<Op>)
    ensures |ops| == 499
  {
    seq(499, i requires 0 <= i < 499 => WriteOp(Target(i) * PAGE_SIZE, Fill(i)))
  }

  /** So the run is safe, and its requests are rightly answered, up to the last write. */
  lemma {:induction false} SafeUntilTheLast(i: nat)
    requires i <= 499
    ensures Whole(CAPACITY) && StoreRun(CAPACITY, LosingWrites()[..i]).led == After(i)
    ensures SafeRun(CAPACITY, LosingWrites()[..i]) <==> i < 499
  {
    hide Written;
    hide SafeWrite;
    hide Formed;
    hide Splice;
    var ops := LosingWrites();
    if i > 0 {
      SafeUntilTheLast(i - 1);
      assert ops[..i][..i - 1] == ops[..i - 1] && ops[..i][i - 1] == ops[i - 1];
      OnlyTheLastSteals(i - 1);
    }
  }

  /** ... and then page 0 is read. */
  function LosingOps(): (ops: seq<Op>)
    ensures |ops| == 500
  {
    LosingWrites() + [ReadOp(0, PAGE_SIZE)]
  }

  /** The right answer to the read is a page of ones. */
  lemma RightAnswer()
    ensures var right := FlatReplies(CAPACITY, LosingOps())[499];
            right.Got? && right.ok && |right.bytes| == PAGE_SIZE && right.bytes[0] == ONE
  {
    hide FlatRun;
    hide FlatReplies;
    var ops, writes := LosingOps(), LosingWrites();
    assert ops[..499] == writes;
    LatestWriteWins(CAPACITY, writes, 0, 489);
    LastReply(CAPACITY, ops);
  }

  lemma LastReply(capacity: nat, ops: seq<Op>)
    requires ops != []
    ensures FlatReplies(capacity, ops)[|ops| - 1] == FlatReply(FlatRun(capacity, ops[..|ops| - 1]), ops[|ops| - 1])
  {
  }

  lemma Accepted(i: nat)
    requires i < 499
    ensures Written(After(i), Target(i) * PAGE_SIZE, PAGE_SIZE).0
    ensures i != 487 ==>
              Free(After(i)) > 25 && ClosingPasses(After(i), Target(i) * PAGE_SIZE, PAGE_SIZE) == 0
  {
    hide Written;
    hide ClosingPasses;
    hide Rewritten;
    hide Spread;
    hide Doubled;
    hide Overrun;
    hide Formed;
    hide SegmentWritten;
    hide Down;
    hide Free;
    if i < 249 {
      FirstPart249(i);
      RewrittenStep(After(i), i);
    } else if i < 488 {
      if i == 487 {
        WriteThatCollects();
        return;
      }
      SecondPart(i - 249);
      SpreadStep(After(i), i - 249);
    } else if i == 488 {
      WriteThatCollects();
      OverrunBegins(After(488));
    } else {
      ThirdPart(i - 489);
      OverrunStep(After(i), i - 489);
    }
    Spared(After(i), Target(i));
  }

  method WriteWhole(ftl: FTJController, i: nat) returns (ok: bool)
    requires ftl.Valid() && ftl.Shape() && ftl.capacity == CAPACITY && i < 499 && ftl.Led() == After(i)
    modifies ftl, ftl.memoryBuffer, ftl.eccBuffer
    ensures ok && ftl.Valid() && ftl.Shape() && ftl.Led() == After(i + 1)
    ensures i != 487 ==> ftl.Logical(Target(i)) == Fill(i)
  {
    hide Formed;
    hide Written;
    hide ClosingPasses;
    hide CleanWrite;
    hide CleanRange;
    hide Segments;
    hide LogicalPage;
    hide Ftl.FTJController.Valid;
    hide Ftl.FTJController.Fresh;
    hide Ftl.FTJController.Contents;
    hide Ftl.FTJController.NoVictim;
    Accepted(i);
    assert Target(i) * PAGE_SIZE / PAGE_SIZE == Target(i) && Target(i) * PAGE_SIZE % PAGE_SIZE == 0;
    ghost var page := ftl.Logical(Target(i));
    ghost var done, passes;
    ok, done, passes := ftl.Write(Target(i) * PAGE_SIZE, Fill(i));
    ftl.ValidHasShape();
    SpliceAll(page, Fill(i));
  }

  lemma SpliceAll(page: seq<Byte>, data: seq<Byte>)
    requires |page| == |data|
    ensures Splice(page, 0, data) == data
  {
  }

  /** Two logical pages on one physical page read alike. */
  lemma PageZeroIsPage249(ftl: FTJController)
    requires ftl.Shape() && ftl.pageCount == PAGES && ftl.Led() == After(499)
    ensures ftl.Readable()
    ensures ftl.Contents()[0..PAGE_SIZE] == ftl.Logical(0) == ftl.Logical(249)
  {
    hide Formed;
    hide After;
    ftl.AllMapped();
    ThirdPart(10);
    FlatSlice(PAGES, ftl.l2pMap, ftl.memoryBuffer[..], 0, 0, PAGE_SIZE);
  }

  /** Every request of the run succeeds, and yet the last answers with the bytes of page 249. */
  method LosingRun(noise: nat -> nat -> Word) returns (replies: seq<Reply>)
    requires forall lp: nat :: Silent(noise(lp))
    ensures replies == seq(499, _ => Wrote(true)) + [Got(true, ZeroPage())]
    ensures replies[499] != FlatReplies(CAPACITY, LosingOps())[499]
  {
    hide Silent;
    hide QuietEnough;
    hide Formed;
    hide After;
    hide LogicalPage;
    hide Ftl.FTJController.Valid;
    hide Ftl.FTJController.Shape;
    hide Ftl.FTJController.Fresh;
    hide Ftl.FTJController.Contents;
    hide Ftl.FTJController.Readable;
    var ftl := new FTJController(CAPACITY);
    ftl.ValidHasShape();
    AfterNothing();
    assert ftl.pageCount == PAGES by {
      PagesOf(ftl);
    }
    replies := [];
    for i := 0 to 499
      invariant fresh(ftl) && fresh(ftl.memoryBuffer) && fresh(ftl.eccBuffer)
      invariant ftl.Valid() && ftl.Shape() && ftl.Led() == After(i)
      invariant replies == seq(i, _ => Wrote(true))
      invariant i == 499 ==> ftl.Logical(249) == Fill(498)
    {
      var ok := WriteWhole(ftl, i);
      replies := replies + [Wrote(ok)];
    }
    PageZeroIsPage249(ftl);
    SilentIsQuiet(noise);
    var bytes, ok := ftl.Read(0, PAGE_SIZE, noise);
    assert Fill(498) == ZeroPage();
    replies := replies + [Got(ok, bytes)];
    RightAnswer();
  }

  lemma AfterNothing()
    ensures After(0) == Starting(PAGES)
  {
  }

  lemma PagesOf(ftl: FTJController)
    requires ftl.Shape() && ftl.capacity == CAPACITY
    ensures ftl.pageCount == PAGES
  {
  }
}
