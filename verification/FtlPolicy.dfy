/** The storage engine's choices: its zones, the page a write or a move takes, the block that is collected, and when a
    collection ends. */
module FtlPolicy {
  import opened FtlMaps
  import opened FtlLedger

  // ---------------------------------------------------------------- zones

  function Blocks(n: nat): nat {
    Max1(n / 256)
  }

  /** The hot zone is the first fifth of the blocks, rounded down, but at least one. */
  lemma HotZone(n: nat, p: nat)
    requires WholeBlocks(n) && p < n
    ensures p in Starting(n).hot <==> p / 256 < Max1(Blocks(n) / 5)
    ensures p in Starting(n).cold <==> p / 256 >= Max1(Blocks(n) / 5)
  {
    InDown(0, ZoneBorder(n));
    InDown(ZoneBorder(n), n);
    InBlocks(p, Max1(Blocks(n) / 5));
  }

  lemma InBlocks(p: nat, blocks: nat)
    ensures p / 256 < blocks <==> p < BlockStart(blocks)
  {
  }

  /** The erase puts a page of block b on the hot list exactly if b is below a fifth of the blocks. */
  predicate ComesBackHot(n: nat, p: nat)
    requires WholeBlocks(n) && p < n
  {
    FreedOne(Starting(n), p).hot != Starting(n).hot
  }

  /** Every page comes back to the zone it started in exactly when there are five blocks or more: with fewer, the first
      block starts hot and comes back cold. */
  lemma ZonesKeptExactlyWhen(n: nat)
    requires WholeBlocks(n) && n > 0
    ensures (forall p: nat :: p < n ==> (ComesBackHot(n, p) <==> p in Starting(n).hot)) <==> Blocks(n) >= 5
  {
    forall p: nat | p < n ensures ComesBackHot(n, p) <==> p / 256 < Blocks(n) / 5 {
      var led := Starting(n);
      FreedOneLists(led, p);
      assert FreedOne(led, p).hot == led.hot + [p] ==> |FreedOne(led, p).hot| > |led.hot|;
    }
    forall p: nat | p < n ensures p in Starting(n).hot <==> p / 256 < Max1(Blocks(n) / 5) {
      HotZone(n, p);
    }
    assert ComesBackHot(n, 0) <==> 0 < Blocks(n) / 5;
  }

  // ---------------------------------------------------------------- taking pages

  /** A write takes the last page of the hot list if its page has now been written four times or more and there is one,
      else the last cold page, and a hot page also when no cold one is left. */
  lemma SegmentTakes(led: Ledger, lp: nat)
    requires Formed(led) && lp < |led.l2p| && Free(led) > 0
    ensures |led.heat| == |led.l2p|
    ensures var r, count := SegmentWritten(led, lp), (led.heat[lp] + 1) % 0x1_0000_0000;
            && r.0 && |r.1.l2p| == |led.l2p| && r.1.heat == led.heat[lp := count]
            && if (count >= 4 && led.hot != []) || led.cold == [] then
                 && led.hot != [] && r.1.hot + [r.1.l2p[lp]] == led.hot && r.1.cold == led.cold
               else r.1.cold + [r.1.l2p[lp]] == led.cold && r.1.hot == led.hot
  {
    SegmentWithFree(led, lp);
    MappedKeeps(Taken(Heated(led, lp), Hotter(led.heat[lp]) >= HOT_THRESHOLD), lp,
                NextPage(Heated(led, lp), Hotter(led.heat[lp]) >= HOT_THRESHOLD), led.l2p[lp]);
  }

  /** A collection moves a page to the last cold page, and to a hot one only when no cold one is left. */
  lemma MoveTakes(led: Ledger, p: nat)
    requires Formed(led) && p < |led.l2p| && Free(led) > 0
    ensures |led.owner| == |led.valid| == |led.l2p|
    ensures var t := MovedOne(led, p);
            && t.heat == led.heat && |t.l2p| == |led.l2p|
            && (!led.valid[p] ==> t == led)
            && (led.valid[p] && led.owner[p] >= 0 ==>
                  if led.cold != [] then t.cold + [t.l2p[led.owner[p]]] == led.cold && t.hot == led.hot
                  else t.hot + [t.l2p[led.owner[p]]] == led.hot && t.cold == [])
  {
    hide ValidAfter;
    hide OwnerAfter;
    hide CountersAfter;
    hide BlockOf;
    if led.valid[p] && led.owner[p] >= 0 {
      MappedKeeps(Taken(led, false), led.owner[p], NextPage(led, false), p);
    }
  }

  // ---------------------------------------------------------------- a full store

  /** With nothing free a pass can move nothing. */
  lemma {:induction false} NothingMoves(led: Ledger, lo: nat, hi: nat)
    requires Formed(led) && lo <= hi <= |led.l2p| && Free(led) == 0
    ensures MovedUpTo(led, lo, hi) == led
    decreases hi - lo
  {
    hide Formed;
    if lo < hi {
      NothingMoves(led, lo, hi - 1);
    }
  }

  /** How many pages of a block hold nothing. */
  function Stale(led: Ledger, b: nat): nat
    requires Formed(led) && b < |led.blockValid|
  {
    BlockFits(led, b);
    |InvalidIn(led.valid, BlockStart(b), BlockEnd(|led.l2p|, b))|
  }

  lemma FullPassFrees(led: Ledger, b: nat)
    requires Formed(led) && b < |led.blockValid| && Free(led) == 0
    ensures Free(Pass(led, b)) == Stale(led, b)
  {
    BlockFits(led, b);
    TablesSized(led);
    NothingMoves(led, BlockStart(b), BlockEnd(|led.l2p|, b));
    FreedLists(led, BlockStart(b), BlockEnd(|led.l2p|, b), b);
  }

  /** A write to a full store collects first. It fails if there is no victim or its victim is in use throughout; if the
      victim's stale pages are as many as a collection aims at, it succeeds and leaves one fewer free. */
  lemma FullStoreWrites(led: Ledger, lp: nat)
    requires Formed(led) && lp < |led.l2p| && Free(led) == 0
    ensures var h, r := Heated(led, lp), SegmentWritten(led, lp);
            && (Victim(h) < 0 || Stale(h, Victim(h)) == 0 ==> !r.0)
            && (Victim(h) >= 0 && Stale(h, Victim(h)) >= TargetFree(|led.l2p|) ==>
                  r.0 && Free(r.1) == Stale(h, Victim(h)) - 1)
  {
    hide Victim;
    hide Stale;
    hide Pass;
    var h := Heated(led, lp);
    if Victim(h) >= 0 {
      FullPassFrees(h, Victim(h));
    }
    hide Formed;
  }

  // ---------------------------------------------------------------- the block to collect

  /** One more valid page makes a block score sixteen more. */
  lemma ScoreOfValidPage(led: Ledger, b: nat)
    requires Formed(led) && b < |led.blockValid|
    ensures var more := led.(blockValid := led.blockValid[b := led.blockValid[b] + 1]);
            Formed(more) && Score(more, b) == Score(led, b) + 16
  {
    var more := led.(blockValid := led.blockValid[b := led.blockValid[b] + 1]);
    BlockFits(led, b);
    BlockFits(more, b);
  }

  /** Page p alone, of those of block b, holds the logical page lp. */
  ghost predicate HoldsAlone(led: Ledger, b: nat, p: nat, lp: nat) {
    && p < |led.owner| && BlockOf(p) == b && led.owner[p] == lp
    && forall q: nat :: q < |led.owner| && BlockOf(q) == b && led.owner[q] == lp ==> q == p
  }

  lemma {:induction false} HotScoreOneMore(owner: seq<int>, heat: seq<nat>, lo: nat, hi: nat, p: nat, lp: nat, h: nat)
    requires lo <= hi <= |owner| && lp < |heat|
    requires forall q: nat :: lo <= q < hi && owner[q] == lp ==> q == p
    ensures HotScore(owner, heat[lp := h], lo, hi)
              == HotScore(owner, heat, lo, hi)
                 + if lo <= p < hi && owner[p] == lp then AsInt32(h) - AsInt32(heat[lp]) else 0
    decreases hi - lo
  {
    hide AsInt32;
    if lo < hi {
      HotScoreOneMore(owner, heat, lo, hi - 1, p, lp, h);
    }
  }

  /** A write of a page makes the block that holds it score one more, until the count no longer fits an int: then the
      block's score drops by nearly 2^32, so the hottest page makes its block the one to collect. */
  lemma ScoreOfHeat(led: Ledger, b: nat, p: nat, lp: nat)
    requires Formed(led) && b < |led.blockValid| && lp < |led.heat| && HoldsAlone(led, b, p, lp)
    ensures Formed(Heated(led, lp))
    ensures var gained := Score(Heated(led, lp), b) - Score(led, b);
            led.heat[lp] < 0xffff_ffff ==> gained == if led.heat[lp] == 0x7fff_ffff then 1 - 0x1_0000_0000 else 1
  {
    var hot := Heated(led, lp);
    BlockFits(led, b);
    BlockFits(hot, b);
    assert BlockStart(b) <= p < BlockEnd(|led.l2p|, b);
    HotScoreOneMore(led.owner, led.heat, BlockStart(b), BlockEnd(|led.l2p|, b), p, lp, Hotter(led.heat[lp]));
  }

  // ---------------------------------------------------------------- the course of a collection

  /** The ledger after so many passes, each over the victim of its own moment. */
  function AfterPasses(led: Ledger, k: nat): (t: Ledger)
    requires Formed(led)
    ensures Formed(t) && |t.l2p| == |led.l2p|
  {
    if k == 0 then led
    else
      var t := AfterPasses(led, k - 1);
      if Victim(t) < 0 then t else Pass(t, Victim(t))
  }

  /** A collection is a number of passes over the victims; before each of them too little is free and there is a victim,
      each but the last gains a page, and it ends when enough is free, no victim is left or the last pass gained
      nothing. */
  ghost predicate Course(led: Ledger, target: nat, k: nat)
    requires Formed(led)
  {
    && (forall j: nat :: j < k ==> GoesOn(led, target, j))
    && (forall j: nat :: j + 1 < k ==> Free(AfterPasses(led, j)) < Free(AfterPasses(led, j + 1)))
    && (|| Free(AfterPasses(led, k)) >= target || Victim(AfterPasses(led, k)) < 0
        || (k > 0 && Free(AfterPasses(led, k)) <= Free(AfterPasses(led, k - 1))))
  }

  ghost predicate GoesOn(led: Ledger, target: nat, j: nat)
    requires Formed(led)
  {
    Free(AfterPasses(led, j)) < target && Victim(AfterPasses(led, j)) >= 0
  }

  lemma {:induction false} PassFirst(led: Ledger, k: nat)
    requires Formed(led) && Victim(led) >= 0
    ensures AfterPasses(led, k + 1) == AfterPasses(Pass(led, Victim(led)), k)
  {
    hide Formed;
    hide Pass;
    hide Victim;
    if k > 0 {
      PassFirst(led, k - 1);
    } else {
      var t := Pass(led, Victim(led));
      assert AfterPasses(t, 0) == t;
      assert AfterPasses(led, 0) == led;
    }
  }

  lemma {:induction false} CollectionIsCourse(led: Ledger, target: nat)
    requires Formed(led)
    ensures Collected(led, target) == AfterPasses(led, Passes(led, target))
    ensures Course(led, target, Passes(led, target))
    decreases target - Free(led)
  {
    hide Formed;
    hide Pass;
    hide Victim;
    if Free(led) < target && Victim(led) >= 0 {
      var t := Pass(led, Victim(led));
      if Free(led) < Free(t) < target {
        CollectionIsCourse(t, target);
        PassFirst(led, Passes(t, target));
        CourseLonger(led, target, Passes(t, target));
      } else {
        PassFirst(led, 0);
      }
    }
  }

  /** A gaining first pass puts one more pass in front of the course. */
  lemma CourseLonger(led: Ledger, target: nat, k: nat)
    requires Formed(led) && Free(led) < target && Victim(led) >= 0
    requires var t := Pass(led, Victim(led)); Free(led) < Free(t) < target && Course(t, target, k)
    ensures Course(led, target, k + 1)
  {
    hide Formed;
    hide Pass;
    hide Victim;
    hide AfterPasses;
    var t := Pass(led, Victim(led));
    FirstPasses(led);
    forall j: nat | j <= k ensures AfterPasses(led, j + 1) == AfterPasses(t, j) {
      PassFirst(led, j);
    }
    forall j: nat | j < k + 1 ensures GoesOn(led, target, j) {
      assert j > 0 ==> GoesOn(t, target, j - 1);
    }
    forall j: nat | j + 1 < k + 1 ensures Free(AfterPasses(led, j)) < Free(AfterPasses(led, j + 1)) {
      assert j > 0 ==> Free(AfterPasses(t, j - 1)) < Free(AfterPasses(t, j - 1 + 1));
    }
  }

  lemma FirstPasses(led: Ledger)
    requires Formed(led) && Victim(led) >= 0
    ensures AfterPasses(led, 0) == led && AfterPasses(Pass(led, Victim(led)), 0) == Pass(led, Victim(led))
  {
  }
}
