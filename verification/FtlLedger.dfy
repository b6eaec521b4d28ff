/** The storage engine's bookkeeping as a value: what every operation does to the maps, the free lists and the
    counters, and when a collection leaves the free lists sound. */
module FtlLedger {
  import opened FtlMaps
  import opened PageStore

  const HOT_THRESHOLD: nat := 4
  const UINT32: nat := 0x1_0000_0000
  const INT_MAX: int := 0x7fff_ffff

  datatype Ledger = Ledger(l2p: seq<int>, valid: seq<bool>, owner: seq<int>, blockValid: seq<int>,
                           hot: seq<int>, cold: seq<int>, heat: seq<nat>)

  /** Tables of one size, of whole blocks, whose entries are page numbers or -1. */
  ghost predicate Formed(led: Ledger) {
    var n := |led.l2p|;
    && WholeBlocks(n) && |led.valid| == |led.owner| == |led.heat| == n
    && |led.blockValid| == Max1(n / PAGES_PER_BLOCK)
    && (forall lp :: 0 <= lp < n ==> -1 <= led.l2p[lp] < n)
    && (forall p :: 0 <= p < n ==> -1 <= led.owner[p] < n)
    && (forall i :: 0 <= i < |led.hot| ==> 0 <= led.hot[i] < n)
    && (forall i :: 0 <= i < |led.cold| ==> 0 <= led.cold[i] < n)
    && (forall b :: 0 <= b < |led.blockValid| ==> led.blockValid[b] >= 0)
  }

  lemma TablesSized(led: Ledger)
    requires Formed(led)
    ensures |led.valid| == |led.owner| == |led.heat| == |led.l2p|
    ensures |led.blockValid| == Max1(|led.l2p| / PAGES_PER_BLOCK)
    ensures WholeBlocks(|led.l2p|)
  {
  }

  function Free(led: Ledger): nat {
    |led.hot| + |led.cold|
  }

  function Last(s: seq<int>): int
    requires s != []
  {
    s[|s| - 1]
  }

  predicate FromHot(led: Ledger, preferHot: bool) {
    (preferHot && led.hot != []) || led.cold == []
  }

  /** The page that an allocation takes: the last of the preferred list, or of the other if that is empty. */
  function NextPage(led: Ledger, preferHot: bool): (p: int)
    requires Formed(led) && Free(led) > 0
    ensures 0 <= p < |led.l2p|
  {
    if FromHot(led, preferHot) then Last(led.hot) else Last(led.cold)
  }

  function Taken(led: Ledger, preferHot: bool): (t: Ledger)
    requires Formed(led) && Free(led) > 0
    ensures Formed(t) && t == led.(hot := t.hot, cold := t.cold) && Free(t) == Free(led) - 1
  {
    if FromHot(led, preferHot) then led.(hot := led.hot[..|led.hot| - 1]) else led.(cold := led.cold[..|led.cold| - 1])
  }

  lemma BlockInRange(led: Ledger, p: nat)
    requires Formed(led) && p < |led.l2p|
    ensures BlockOf(p) < |led.blockValid|
  {
  }

  /** lp is mapped to new_, and its old page, if any, goes stale. */
  function Mapped(led: Ledger, lp: nat, new_: nat, old_: int): (t: Ledger)
    requires Formed(led) && lp < |led.l2p| && new_ < |led.l2p| && -1 <= old_ < |led.l2p|
    ensures Formed(t) && |t.l2p| == |led.l2p| && Free(t) == Free(led)
  {
    BlockInRange(led, new_);
    if old_ >= 0 then BlockInRange(led, old_); MappedOver(led, lp, new_, old_) else MappedOver(led, lp, new_, old_)
  }

  function MappedOver(led: Ledger, lp: nat, new_: nat, old_: int): (t: Ledger)
    requires Formed(led) && lp < |led.l2p| && new_ < |led.l2p| && -1 <= old_ < |led.l2p|
    requires BlockOf(new_) < |led.blockValid| && (old_ >= 0 ==> BlockOf(old_) < |led.blockValid|)
    ensures Formed(t) && |t.l2p| == |led.l2p| && Free(t) == Free(led)
  {
    led.(l2p := led.l2p[lp := new_], valid := ValidAfter(led.valid, new_, old_),
         owner := OwnerAfter(led.owner, lp, new_, old_), blockValid := CountersAfter(led.blockValid, new_, old_))
  }

  /** The numbers from hi - 1 down to lo. */
  function Down(lo: nat, hi: nat): (s: seq<int>)
    requires lo <= hi
    ensures |s| == hi - lo && forall i :: 0 <= i < hi - lo ==> s[i] == hi - 1 - i
  {
    seq(hi - lo, i => hi - 1 - i)
  }

  lemma InDown(lo: nat, hi: nat)
    requires lo <= hi
    ensures DistinctInts(Down(lo, hi))
    ensures forall p :: p in Down(lo, hi) <==> lo <= p < hi
  {
    forall p | lo <= p < hi ensures p in Down(lo, hi) {
      assert Down(lo, hi)[hi - 1 - p] == p;
    }
  }

  /** The first page of the cold zone. */
  function ZoneBorder(n: nat): (b: nat)
    ensures b <= n
  {
    var hotBlocks := Max1(Max1(n / PAGES_PER_BLOCK) / 5);
    if BlockStart(hotBlocks) < n then BlockStart(hotBlocks) else n
  }

  /** Nothing mapped, every page free in its zone, to be taken in ascending order. */
  function Starting(n: nat): (led: Ledger)
    ensures |led.l2p| == n && Free(led) == n && (WholeBlocks(n) ==> Formed(led))
  {
    Ledger(seq(n, _ => -1), seq(n, _ => false), seq(n, _ => -1), seq(Max1(n / PAGES_PER_BLOCK), _ => 0),
           Down(0, ZoneBorder(n)), Down(ZoneBorder(n), n), seq(n, _ => 0))
  }

  // ---------------------------------------------------------------- collecting

  /** One page of the victim moved out of the way, if a free page can be had. */
  function MovedOne(led: Ledger, p: nat): (t: Ledger)
    requires Formed(led) && p < |led.l2p|
    ensures Formed(t) && |t.l2p| == |led.l2p| && Free(t) <= Free(led)
  {
    if !led.valid[p] || Free(led) == 0 then led
    else
      var t := Taken(led, false);
      if led.owner[p] >= 0 then Mapped(t, led.owner[p], NextPage(led, false), p) else t
  }

  function MovedUpTo(led: Ledger, lo: nat, hi: nat): (t: Ledger)
    requires Formed(led) && lo <= hi <= |led.l2p|
    ensures Formed(t) && |t.l2p| == |led.l2p| && Free(t) <= Free(led)
    decreases hi - lo
  {
    if lo == hi then led else MovedOne(MovedUpTo(led, lo, hi - 1), hi - 1)
  }

  lemma NothingToMove(led: Ledger, p: nat)
    requires Formed(led) && p < |led.l2p| && !led.valid[p]
    ensures MovedOne(led, p) == led && SafeMove(led, p)
  {
  }

  /** One page of the victim freed, if it holds nothing. */
  function FreedOne(led: Ledger, p: nat): (t: Ledger)
    requires Formed(led) && p < |led.l2p|
    ensures Formed(t) && |t.l2p| == |led.l2p|
  {
    if led.valid[p] then led
    else
      var t := led.(owner := led.owner[p := -1]);
      if BlockOf(p) < |led.blockValid| / 5 then t.(hot := led.hot + [p]) else t.(cold := led.cold + [p])
  }

  function FreedUpTo(led: Ledger, lo: nat, hi: nat): (t: Ledger)
    requires Formed(led) && lo <= hi <= |led.l2p|
    ensures Formed(t) && |t.l2p| == |led.l2p|
    decreases hi - lo
  {
    if lo == hi then led else FreedOne(FreedUpTo(led, lo, hi - 1), hi - 1)
  }

  /** In one block: its invalid pages, ascending, go to the end of its zone's list, and lose their owners. */
  lemma {:induction false} FreedLists(led: Ledger, lo: nat, hi: nat, b: nat)
    requires Formed(led) && lo <= hi <= |led.l2p| && forall p :: lo <= p < hi ==> BlockOf(p) == b
    ensures var t, freed := FreedUpTo(led, lo, hi), InvalidIn(led.valid, lo, hi);
            && t.valid == led.valid && t.l2p == led.l2p && t.blockValid == led.blockValid && t.heat == led.heat
            && (b < |led.blockValid| / 5 ==> t.hot == led.hot + freed && t.cold == led.cold)
            && (b >= |led.blockValid| / 5 ==> t.cold == led.cold + freed && t.hot == led.hot)
            && ((forall p :: lo <= p < hi && !led.valid[p] ==> led.owner[p] == -1) ==> t.owner == led.owner)
    decreases hi - lo
  {
    hide Formed;
    hide FreedOne;
    if lo < hi {
      FreedLists(led, lo, hi - 1, b);
      FreedOneLists(FreedUpTo(led, lo, hi - 1), hi - 1);
    }
  }

  lemma FreedOneLists(led: Ledger, p: nat)
    requires Formed(led) && p < |led.l2p|
    ensures |led.valid| == |led.owner| == |led.l2p|
    ensures var t, freed := FreedOne(led, p), if led.valid[p] then [] else [p];
            && t.valid == led.valid && t.l2p == led.l2p && t.blockValid == led.blockValid && t.heat == led.heat
            && (BlockOf(p) < |led.blockValid| / 5 ==> t.hot == led.hot + freed && t.cold == led.cold)
            && (BlockOf(p) >= |led.blockValid| / 5 ==> t.cold == led.cold + freed && t.hot == led.hot)
            && ((!led.valid[p] ==> led.owner[p] == -1) ==> t.owner == led.owner)
  {
  }

  /** Moving pages only takes pages off the free lists. */
  lemma {:induction false} MovedTakes(led: Ledger, lo: nat, hi: nat)
    requires Formed(led) && lo <= hi <= |led.l2p|
    ensures var t := MovedUpTo(led, lo, hi); NoMoreFree(t.hot, t.cold, led.hot, led.cold)
    decreases hi - lo
  {
    hide Formed;
    hide MovedOne;
    if lo < hi {
      MovedTakes(led, lo, hi - 1);
      MovedOneTakes(MovedUpTo(led, lo, hi - 1), hi - 1);
    }
  }

  lemma MovedOneTakes(led: Ledger, p: nat)
    requires Formed(led) && p < |led.l2p|
    ensures var t := MovedOne(led, p); NoMoreFree(t.hot, t.cold, led.hot, led.cold)
  {
    TablesSized(led);
    hide Formed;
    if led.valid[p] && Free(led) > 0 {
      var t := Taken(led, false);
      assert forall x :: InFree(t.hot, t.cold, x) ==> InFree(led.hot, led.cold, x);
    }
  }

  lemma NothingToFree(led: Ledger, p: nat)
    requires Formed(led) && p < |led.l2p| && led.valid[p]
    ensures FreedOne(led, p) == led
  {
  }

  lemma BlockFits(led: Ledger, b: nat)
    requires Formed(led) && b < |led.blockValid|
    ensures BlockStart(b) <= BlockEnd(|led.l2p|, b) <= |led.l2p|
    ensures forall p :: BlockStart(b) <= p < BlockEnd(|led.l2p|, b) ==> BlockOf(p) == b
  {
  }

  /** Valid pages weigh sixteen, and each mapped page its owner's heat. */
  function Score(led: Ledger, b: nat): int
    requires Formed(led) && b < |led.blockValid|
  {
    BlockFits(led, b);
    led.blockValid[b] * 16 + HotScore(led.owner, led.heat, BlockStart(b), BlockEnd(|led.l2p|, b))
  }

  /** The first block of least score among the first k, or -1 when no score is below INT_MAX. */
  function VictimUpTo(led: Ledger, k: nat): (v: int)
    requires Formed(led) && k <= |led.blockValid|
    ensures -1 <= v < k
  {
    if k == 0 then -1
    else
      var v := VictimUpTo(led, k - 1);
      if Score(led, k - 1) < (if v < 0 then INT_MAX else Score(led, v)) then k - 1 else v
  }

  function Victim(led: Ledger): (v: int)
    requires Formed(led)
    ensures -1 <= v < |led.blockValid|
  {
    VictimUpTo(led, |led.blockValid|)
  }

  lemma {:induction false} VictimIsFirstLeast(led: Ledger, k: nat)
    requires Formed(led) && k <= |led.blockValid|
    ensures var v := VictimUpTo(led, k);
            && (v >= 0 ==> Score(led, v) < INT_MAX)
            && (v >= 0 ==>
                  forall b: nat :: b < k ==>
                    Score(led, v) <= Score(led, b) && (b < v ==> Score(led, v) < Score(led, b)))
            && (v < 0 ==> forall b: nat :: b < k ==> Score(led, b) >= INT_MAX)
  {
    hide Score;
    if k > 0 {
      VictimIsFirstLeast(led, k - 1);
    }
  }

  /** One pass over the victim: its pages moved, its stale pages freed, its counter zeroed. */
  function Pass(led: Ledger, b: nat): (t: Ledger)
    requires Formed(led) && b < |led.blockValid|
    ensures Formed(t) && |t.l2p| == |led.l2p|
  {
    BlockFits(led, b);
    var moved := MovedUpTo(led, BlockStart(b), BlockEnd(|led.l2p|, b));
    var freed := FreedUpTo(moved, BlockStart(b), BlockEnd(|led.l2p|, b));
    freed.(blockValid := freed.blockValid[b := 0])
  }

  /** Passes until enough is free, a pass gains nothing, or no block qualifies. */
  function Collected(led: Ledger, target: nat): (t: Ledger)
    requires Formed(led)
    ensures Formed(t) && |t.l2p| == |led.l2p|
    decreases target - Free(led)
  {
    if Free(led) >= target || Victim(led) < 0 then led
    else
      var t := Pass(led, Victim(led));
      if Free(t) <= Free(led) || Free(t) >= target then t else Collected(t, target)
  }

  function Passes(led: Ledger, target: nat): nat
    requires Formed(led)
    decreases target - Free(led)
  {
    if Free(led) >= target || Victim(led) < 0 then 0
    else
      var t := Pass(led, Victim(led));
      if Free(t) <= Free(led) || Free(t) >= target then 1 else 1 + Passes(t, target)
  }

  /** No page of the block is on a free list. */
  ghost predicate CleanBlock(led: Ledger, b: nat) {
    forall p :: BlockStart(b) <= p < BlockEnd(|led.l2p|, b) ==> !InFree(led.hot, led.cold, p)
  }

  /** Once the victim's valid pages have been moved, no page of it is on a free list. */
  ghost predicate CleanPass(led: Ledger, b: nat)
    requires Formed(led) && b < |led.blockValid|
  {
    BlockFits(led, b);
    CleanBlock(MovedUpTo(led, BlockStart(b), BlockEnd(|led.l2p|, b)), b)
  }

  /** It is enough that no page of the victim was free before. */
  lemma CleanBlockIsEnough(led: Ledger, b: nat)
    requires Formed(led) && b < |led.blockValid| && CleanBlock(led, b)
    ensures CleanPass(led, b)
  {
    hide Formed;
    BlockFits(led, b);
    MovedTakes(led, BlockStart(b), BlockEnd(|led.l2p|, b));
  }

  /** Every pass of the collection is clean. */
  ghost predicate CleanCollection(led: Ledger, target: nat)
    requires Formed(led)
    decreases target - Free(led)
  {
    if Free(led) >= target || Victim(led) < 0 then true
    else
      var t := Pass(led, Victim(led));
      && CleanPass(led, Victim(led))
      && if Free(t) <= Free(led) || Free(t) >= target then true else CleanCollection(t, target)
  }

  // ---------------------------------------------------------------- handing out pages in use

  /** The page that an allocation takes, if there is one to take, holds nothing. */
  predicate SafeTake(led: Ledger, preferHot: bool)
    requires Formed(led)
  {
    Free(led) > 0 ==> !led.valid[NextPage(led, preferHot)]
  }

  predicate SafeMove(led: Ledger, p: nat)
    requires Formed(led) && p < |led.l2p|
  {
    led.valid[p] ==> SafeTake(led, false)
  }

  predicate SafeMoves(led: Ledger, lo: nat, hi: nat)
    requires Formed(led) && lo <= hi <= |led.l2p|
    decreases hi - lo
  {
    lo == hi || (SafeMoves(led, lo, hi - 1) && SafeMove(MovedUpTo(led, lo, hi - 1), hi - 1))
  }

  /** No page in use is taken for one that the pass moves. */
  predicate SafePass(led: Ledger, b: nat)
    requires Formed(led) && b < |led.blockValid|
  {
    BlockFits(led, b);
    SafeMoves(led, BlockStart(b), BlockEnd(|led.l2p|, b))
  }

  predicate SafeCollection(led: Ledger, target: nat)
    requires Formed(led)
    decreases target - Free(led)
  {
    if Free(led) >= target || Victim(led) < 0 then true
    else
      var t := Pass(led, Victim(led));
      && SafePass(led, Victim(led))
      && if Free(t) <= Free(led) || Free(t) >= target then true else SafeCollection(t, target)
  }

  lemma SafeStep(led: Ledger, target: nat)
    requires Formed(led)
    ensures Free(led) >= target || Victim(led) < 0 ==> SafeCollection(led, target)
    ensures Free(led) < target && Victim(led) >= 0 ==>
              var t := Pass(led, Victim(led));
              SafeCollection(led, target) <==>
                SafePass(led, Victim(led)) && (Free(t) <= Free(led) || Free(t) >= target || SafeCollection(t, target))
  {
    hide Formed;
    hide Pass;
    hide Victim;
    hide SafePass;
  }

  /** A collection that began with led0 has made some passes, reached led, and goes on or has ended there. */
  ghost predicate Collecting(led0: Ledger, target: nat, led: Ledger, passes: nat) {
    && Formed(led0) && Formed(led)
    && Collected(led0, target) == Collected(led, target)
    && Passes(led0, target) == passes + Passes(led, target)
  }

  lemma CollectingBegins(led: Ledger, target: nat)
    requires Formed(led)
    ensures Collecting(led, target, led, 0)
  {
  }

  lemma CollectingStep(led0: Ledger, target: nat, led: Ledger, passes: nat)
    requires Collecting(led0, target, led, passes) && Free(led) < target
    ensures Victim(led) < 0 ==> Collected(led0, target) == led && Passes(led0, target) == passes
    ensures Victim(led) >= 0 ==>
              var t := Pass(led, Victim(led));
                 if Free(t) <= Free(led) || Free(t) >= target
                 then Collected(led0, target) == t && Passes(led0, target) == passes + 1
                 else Collecting(led0, target, t, passes + 1)
  {
    hide Formed;
    hide Pass;
    hide Victim;
  }

  lemma CleanStep(led: Ledger, target: nat)
    requires Formed(led)
    ensures Free(led) >= target || Victim(led) < 0 ==> CleanCollection(led, target)
    ensures Free(led) < target && Victim(led) >= 0 ==>
              var t := Pass(led, Victim(led));
              CleanCollection(led, target) <==>
                CleanPass(led, Victim(led)) && (Free(t) <= Free(led) || Free(t) >= target || CleanCollection(t, target))
  {
    hide Formed;
    hide Pass;
    hide Victim;
    hide CleanPass;
  }

  lemma CollectingEnds(led0: Ledger, target: nat, led: Ledger, passes: nat)
    requires Collecting(led0, target, led, passes) && Free(led) >= target
    ensures Collected(led0, target) == led && Passes(led0, target) == passes
  {
  }

  /** A collection that starts with nothing free and ends with its first pass is clean. */
  lemma NothingFreeIsClean(led: Ledger, target: nat)
    requires Formed(led) && Free(led) == 0 && Passes(led, target) <= 1
    ensures CleanCollection(led, target)
  {
    hide Formed;
    hide Pass;
    hide Victim;
    hide CleanPass;
    if Free(led) < target && Victim(led) >= 0 {
      CleanBlockIsEnough(led, Victim(led));
      var t := Pass(led, Victim(led));
      if Free(t) > 0 && Free(t) < target {
        CleanStep(t, target);
        assert Passes(t, target) == 0;
      }
    }
  }

  // ---------------------------------------------------------------- writing

  function LowWatermark(n: nat): nat {
    Max1(n / 20)
  }

  function TargetFree(n: nat): nat {
    Max1(n / 10)
  }

  /** One more write of a page; the sum wraps at 32 bits before the source takes the minimum. */
  function Hotter(heat: nat): nat {
    (heat + 1) % UINT32
  }

  /** The saturation that the source asks for never happens: the count is exact below the top, and falls to
      zero there, so the page turns cold. */
  lemma HeatNeverSaturates(heat: nat)
    requires heat < UINT32
    ensures Hotter(heat) == (if heat + 1 < UINT32 - 1 then heat + 1 else UINT32 - 1) <==> heat < UINT32 - 1
    ensures heat == UINT32 - 1 ==> Hotter(heat) == 0 < HOT_THRESHOLD
  {
  }

  function Heated(led: Ledger, lp: nat): (t: Ledger)
    requires Formed(led) && lp < |led.l2p|
    ensures Formed(t) && |t.l2p| == |led.l2p| && Free(t) == Free(led)
  {
    led.(heat := led.heat[lp := Hotter(led.heat[lp])])
  }

  /** The state in which a page is taken: after one collection if none is free. */
  function Ready(led: Ledger): (t: Ledger)
    requires Formed(led)
    ensures Formed(t) && |t.l2p| == |led.l2p|
  {
    if Free(led) > 0 then led else Collected(led, TargetFree(|led.l2p|))
  }

  /** One page's part of a write; it fails when no page can be had. */
  function SegmentWritten(led: Ledger, lp: nat): (r: (bool, Ledger))
    requires Formed(led) && lp < |led.l2p|
    ensures Formed(r.1) && |r.1.l2p| == |led.l2p|
  {
    var t := Ready(Heated(led, lp));
    var preferHot := Hotter(led.heat[lp]) >= HOT_THRESHOLD;
    if Free(t) == 0 then (false, t)
    else (true, Mapped(Taken(t, preferHot), lp, NextPage(t, preferHot), t.l2p[lp]))
  }

  predicate SafeReady(led: Ledger)
    requires Formed(led)
  {
    Free(led) > 0 || SafeCollection(led, TargetFree(|led.l2p|))
  }

  /** Neither a collection that the segment needs nor the segment itself is given a page in use. */
  predicate SafeSegment(led: Ledger, lp: nat)
    requires Formed(led) && lp < |led.l2p|
  {
    SafeReady(Heated(led, lp)) && SafeTake(Ready(Heated(led, lp)), Hotter(led.heat[lp]) >= HOT_THRESHOLD)
  }

  /** Whose page the segment is given, if it is in use. */
  function Robbed(led: Ledger, lp: nat): int
    requires Formed(led) && lp < |led.l2p| && Free(Ready(Heated(led, lp))) > 0
  {
    var t := Ready(Heated(led, lp));
    t.owner[NextPage(t, Hotter(led.heat[lp]) >= HOT_THRESHOLD)]
  }

  lemma RobbedIs(led: Ledger, lp: nat, taken: Ledger, p: int)
    requires Formed(led) && lp < |led.l2p| && lp < |led.heat| && Free(Ready(Heated(led, lp))) > 0
    requires var t, preferHot := Ready(Heated(led, lp)), Hotter(led.heat[lp]) >= HOT_THRESHOLD;
             p == NextPage(t, preferHot) && taken == Taken(t, preferHot)
    ensures 0 <= p < |taken.valid| == |taken.owner| && Robbed(led, lp) == taken.owner[p]
    ensures SafeSegment(led, lp) <==> SafeReady(Heated(led, lp)) && !taken.valid[p]
  {
    hide Ready;
    hide Hotter;
    hide Taken;
    hide NextPage;
    hide SafeCollection;
    TablesSized(Ready(Heated(led, lp)));
    hide Formed;
  }

  lemma SegmentWithFree(led: Ledger, lp: nat)
    requires Formed(led) && lp < |led.l2p| && Free(led) > 0
    ensures lp < |led.heat| && -1 <= led.l2p[lp] < |led.l2p|
    ensures var heated, preferHot := Heated(led, lp), Hotter(led.heat[lp]) >= HOT_THRESHOLD;
            SegmentWritten(led, lp)
            == (true, Mapped(Taken(heated, preferHot), lp, NextPage(heated, preferHot), led.l2p[lp]))
  {
  }

  lemma MappedKeeps(led: Ledger, lp: nat, new_: nat, old_: int)
    requires Formed(led) && lp < |led.l2p| && new_ < |led.l2p| && -1 <= old_ < |led.l2p|
    ensures var t := Mapped(led, lp, new_, old_);
            && t.heat == led.heat && t.hot == led.hot && t.cold == led.cold
            && t.l2p == led.l2p[lp := new_] && t.valid == ValidAfter(led.valid, new_, old_)
            && t.owner == OwnerAfter(led.owner, lp, new_, old_)
  {
  }

  ghost predicate CleanSegment(led: Ledger, lp: nat)
    requires Formed(led) && lp < |led.l2p|
  {
    Free(led) > 0 || CleanCollection(Heated(led, lp), TargetFree(|led.l2p|))
  }

  /** The course of one page's write: counted, a page taken if one can be had, and mapped. */
  lemma SegmentOutcome(led: Ledger, lp: nat)
    requires Formed(led) && lp < |led.l2p|
    ensures lp < |led.heat| && lp < |Ready(Heated(led, lp)).l2p| && Free(Heated(led, lp)) == Free(led)
    ensures -1 <= Ready(Heated(led, lp)).l2p[lp] < |led.l2p|
    ensures var t, preferHot := Ready(Heated(led, lp)), Hotter(led.heat[lp]) >= HOT_THRESHOLD;
            SegmentWritten(led, lp)
            == if Free(t) == 0 then (false, t)
               else (true, Mapped(Taken(t, preferHot), lp, NextPage(t, preferHot), t.l2p[lp]))
    ensures CleanSegment(led, lp) <==> Free(led) > 0 || CleanCollection(Heated(led, lp), TargetFree(|led.l2p|))
    ensures SafeSegment(led, lp) <==>
              && SafeReady(Heated(led, lp))
              && SafeTake(Ready(Heated(led, lp)), Hotter(led.heat[lp]) >= HOT_THRESHOLD)
  {
    hide Hotter;
    hide CleanCollection;
    hide SafeCollection;
  }

  /** How many bytes of an access at offset lie in its first page. */
  function FirstPart(offset: nat, size: nat): (len: nat)
    requires size > 0
    ensures 0 < len <= size
  {
    var room := PAGE_SIZE - offset % PAGE_SIZE;
    if size < room then size else room
  }

  lemma FirstPartSegments(offset: nat, size: nat)
    requires size > 0
    ensures Segments(offset, size) == 1 + Segments(offset + FirstPart(offset, size), size - FirstPart(offset, size))
  {
    FirstSegment(offset, size);
  }

  /** An access that touches one page only. */
  predicate OnePage(offset: nat, size: nat) {
    0 < size <= PAGE_SIZE - offset % PAGE_SIZE
  }

  lemma InStore(n: nat, offset: nat, size: nat)
    requires size > 0 && offset + size <= n * PAGE_SIZE
    ensures offset / PAGE_SIZE < n
  {
  }

  /** The page-by-page loop: whether all went well, how many bytes were stored, and the ledger. */
  function RangeWritten(led: Ledger, offset: nat, size: nat): (r: (bool, nat, Ledger))
    requires Formed(led) && offset + size <= |led.l2p| * PAGE_SIZE
    ensures Formed(r.2) && |r.2.l2p| == |led.l2p| && r.1 <= size && (r.0 ==> r.1 == size)
    decreases size
  {
    if size == 0 then (true, 0, led)
    else
      InStore(|led.l2p|, offset, size);
      var s := SegmentWritten(led, offset / PAGE_SIZE);
      if !s.0 then (false, 0, s.1)
      else
        var len := FirstPart(offset, size);
        var rest := RangeWritten(s.1, offset + len, size - len);
        (rest.0, len + rest.1, rest.2)
  }

  /** A page-by-page loop that began with the ledger led0 has stored the first bytes and reached led. */
  ghost predicate Underway(led0: Ledger, offset: nat, size: nat, led: Ledger, done: nat) {
    && Formed(led0) && Formed(led) && |led.l2p| == |led0.l2p| && offset + size <= |led.l2p| * PAGE_SIZE && done <= size
    && (var rest := RangeWritten(led, offset + done, size - done);
        RangeWritten(led0, offset, size) == (rest.0, done + rest.1, rest.2))
  }

  /** ... and the rest of it collects cleanly. */
  ghost predicate CleanFrom(led0: Ledger, offset: nat, size: nat, led: Ledger, done: nat) {
    Underway(led0, offset, size, led, done) && CleanRange(led, offset + done, size - done)
  }

  /** ... and the rest of it is given no page in use. */
  ghost predicate SafeFrom(led0: Ledger, offset: nat, size: nat, led: Ledger, done: nat) {
    Underway(led0, offset, size, led, done) && SafeRange(led, offset + done, size - done)
  }

  lemma UnderwayStep(led0: Ledger, offset: nat, size: nat, led: Ledger, done: nat)
    requires Underway(led0, offset, size, led, done) && done < size
    ensures (offset + done) / PAGE_SIZE < |led.l2p|
    ensures var s, len := SegmentWritten(led, (offset + done) / PAGE_SIZE), FirstPart(offset + done, size - done);
            CleanFrom(led0, offset, size, led, done) <==>
              CleanSegment(led, (offset + done) / PAGE_SIZE) && (s.0 ==> CleanFrom(led0, offset, size, s.1, done + len))
    ensures var s, len := SegmentWritten(led, (offset + done) / PAGE_SIZE), FirstPart(offset + done, size - done);
            SafeFrom(led0, offset, size, led, done) <==>
              SafeSegment(led, (offset + done) / PAGE_SIZE) && (s.0 ==> SafeFrom(led0, offset, size, s.1, done + len))
    ensures var s := SegmentWritten(led, (offset + done) / PAGE_SIZE);
            && (!s.0 ==> RangeWritten(led0, offset, size) == (false, done, s.1))
            && (s.0 ==> Underway(led0, offset, size, s.1, done + FirstPart(offset + done, size - done)))
  {
    hide Formed;
    hide SegmentWritten;
    hide CleanSegment;
    hide SafeSegment;
    InStore(|led.l2p|, offset + done, size - done);
  }

  lemma UnderwayEnds(led0: Ledger, offset: nat, size: nat, led: Ledger)
    requires Underway(led0, offset, size, led, size)
    ensures RangeWritten(led0, offset, size) == (true, size, led)
    ensures CleanFrom(led0, offset, size, led, size) && SafeFrom(led0, offset, size, led, size)
  {
  }

  ghost predicate CleanRange(led: Ledger, offset: nat, size: nat)
    requires Formed(led) && offset + size <= |led.l2p| * PAGE_SIZE
    decreases size
  {
    size > 0 ==>
      (InStore(|led.l2p|, offset, size);
       var s := SegmentWritten(led, offset / PAGE_SIZE);
       && CleanSegment(led, offset / PAGE_SIZE)
       && (s.0 ==> CleanRange(s.1, offset + FirstPart(offset, size), size - FirstPart(offset, size))))
  }

  predicate SafeRange(led: Ledger, offset: nat, size: nat)
    requires Formed(led) && offset + size <= |led.l2p| * PAGE_SIZE
    decreases size
  {
    size > 0 ==>
      (InStore(|led.l2p|, offset, size);
       var s := SegmentWritten(led, offset / PAGE_SIZE);
       && SafeSegment(led, offset / PAGE_SIZE)
       && (s.0 ==> SafeRange(s.1, offset + FirstPart(offset, size), size - FirstPart(offset, size))))
  }

  /** A whole write, with the collection that follows when free pages run low. */
  function Written(led: Ledger, offset: nat, size: nat): (r: (bool, nat, Ledger))
    requires Formed(led) && offset + size <= |led.l2p| * PAGE_SIZE
    ensures Formed(r.2) && |r.2.l2p| == |led.l2p| && r.1 <= size && (r.0 ==> r.1 == size)
  {
    var r := RangeWritten(led, offset, size);
    if r.0 && Free(r.2) < LowWatermark(|led.l2p|) then (r.0, r.1, Collected(r.2, TargetFree(|led.l2p|))) else r
  }

  /** How many passes the collection after the last page makes. */
  function ClosingPasses(led: Ledger, offset: nat, size: nat): nat
    requires Formed(led) && offset + size <= |led.l2p| * PAGE_SIZE
  {
    var r := RangeWritten(led, offset, size);
    if r.0 && Free(r.2) < LowWatermark(|led.l2p|) then Passes(r.2, TargetFree(|led.l2p|)) else 0
  }

  /** Every collection the write makes is clean. */
  ghost predicate CleanWrite(led: Ledger, offset: nat, size: nat)
    requires Formed(led) && offset + size <= |led.l2p| * PAGE_SIZE
  {
    && CleanRange(led, offset, size)
    && var r := RangeWritten(led, offset, size);
       r.0 && Free(r.2) < LowWatermark(|led.l2p|) ==> CleanCollection(r.2, TargetFree(|led.l2p|))
  }

  /** Neither the write nor a collection it makes is given a page in use. */
  predicate SafeWrite(led: Ledger, offset: nat, size: nat)
    requires Formed(led) && offset + size <= |led.l2p| * PAGE_SIZE
  {
    && SafeRange(led, offset, size)
    && var r := RangeWritten(led, offset, size);
       r.0 && Free(r.2) < LowWatermark(|led.l2p|) ==> SafeCollection(r.2, TargetFree(|led.l2p|))
  }
}
