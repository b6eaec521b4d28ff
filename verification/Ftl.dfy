/** The storage engine: an out-of-place, page-mapped store with garbage collection. */
module Ftl {
  import opened Ecc
  import opened PageStore
  import opened Splices
  import opened FtlMaps
  import opened FtlLedger

  const WEAR_THRESHOLD: nat := 50000
  const DISTURB_THRESHOLD: nat := 100000

  /** Lists every page once, the last page first, so that pages are taken in ascending order. */
  method InitialLists(n: nat) returns (hot: seq<int>, cold: seq<int>)
    ensures hot == Starting(n).hot && cold == Starting(n).cold
    ensures forall p :: p in hot <==> 0 <= p < n && BlockOf(p) < Max1(Max1(n / PAGES_PER_BLOCK) / 5)
    ensures forall p :: p in cold <==> 0 <= p < n && BlockOf(p) >= Max1(Max1(n / PAGES_PER_BLOCK) / 5)
    ensures NoDup(hot, cold) && forall p :: InFree(hot, cold, p) <==> 0 <= p < n
  {
    var hotBlocks := Max1(Max1(n / PAGES_PER_BLOCK) / 5);
    var border := ZoneBorder(n);
    hot, cold := [], [];
    for p := n downto 0
      invariant hot == Down(if p < border then p else border, border)
      invariant cold == Down(if p < border then border else p, n)
    {
      if BlockOf(p) < hotBlocks {
        hot := hot + [p];
      } else {
        cold := cold + [p];
      }
    }
    InDown(0, border);
    InDown(border, n);
  }

  class FTJController {
    const capacity: nat
    const pageCount: nat
    const numBlocks: nat
    const gcLowWatermark: nat
    const gcTargetFree: nat
    const memoryBuffer: array<Byte>
    const eccBuffer: array<Check>
    var l2pMap: seq<int>
    var physValid: seq<bool>
    var physOwnerLba: seq<int>
    var blockValidCount: seq<int>
    var freeHot: seq<int>
    var freeCold: seq<int>
    var lbaHotCounters: seq<nat>
    var pageWrites: seq<nat>
    var pageDisturbs: seq<nat>
    var totalPhysicalBytesWritten: nat
    /** No free page has ever been listed twice. */
    ghost var sane: bool
    /** No page that holds data has ever been handed out. */
    ghost var intact: bool

    ghost predicate Shape()
      reads this
    {
      && capacity == pageCount * PAGE_SIZE && WholeBlocks(pageCount)
      && numBlocks == Max1(pageCount / PAGES_PER_BLOCK)
      && gcLowWatermark == LowWatermark(pageCount) && gcTargetFree == TargetFree(pageCount)
      && Sized(memoryBuffer, eccBuffer, pageCount)
      && Formed(Led())
      && |l2pMap| == |physValid| == |physOwnerLba| == pageCount
      && |lbaHotCounters| == |pageWrites| == |pageDisturbs| == pageCount
      && |blockValidCount| == numBlocks
      && totalPhysicalBytesWritten == PAGE_SIZE * Sum(pageWrites)
    }

    /** The tables, the free lists and the write counters as one value. */
    ghost function Led(): Ledger
      reads this
    {
      Ledger(l2pMap, physValid, physOwnerLba, blockValidCount, freeHot, freeCold, lbaHotCounters)
    }

    /** The maps agree and the counters are bounded; while no page is listed twice, free pages hold nothing. */
    ghost predicate Coherent()
      requires Shape()
      reads this
    {
      CoherentAt(pageCount, l2pMap, physValid, physOwnerLba, blockValidCount, Hot(), Cold())
    }

    /** The free lists, as far as they can be trusted. */
    ghost function Hot(): seq<int>
      reads this`sane, this`freeHot
    {
      if sane then freeHot else []
    }

    ghost function Cold(): seq<int>
      reads this`sane, this`freeCold
    {
      if sane then freeCold else []
    }

    /** The stored codes of every physical page match its bytes. */
    ghost predicate Stored()
      requires Sized(memoryBuffer, eccBuffer, pageCount)
      reads memoryBuffer, eccBuffer
    {
      AllChecks(pageCount, memoryBuffer[..], eccBuffer[..])
    }

    ghost predicate Valid()
      reads this, memoryBuffer, eccBuffer
    {
      && Shape() && Stored()
      && (sane ==> intact && NoDup(freeHot, freeCold))
      && (intact ==> Coherent())
    }

    function FreeCount(): nat
      reads this
    {
      |freeHot| + |freeCold|
    }

    /** The flat byte array the store is meant to look like. */
    ghost function Contents(): (f: seq<Byte>)
      requires Shape()
      reads this, memoryBuffer
      ensures |f| == capacity
    {
      Flat(pageCount, l2pMap, memoryBuffer[..])
    }

    ghost function Logical(lp: nat): (page: seq<Byte>)
      requires Shape() && lp < pageCount
      reads this, memoryBuffer
      ensures |page| == PAGE_SIZE
    {
      LogicalPage(pageCount, l2pMap, memoryBuffer[..], lp)
    }

    /** A store of any capacity; the invariant holds from the start when no page lies outside the tables. */
    constructor (capacityBytes: nat)
      ensures fresh(memoryBuffer) && fresh(eccBuffer)
      ensures capacity == capacityBytes && pageCount == PagesIn(capacity) && FreeCount() == pageCount
      ensures memoryBuffer.Length == capacity && forall i :: 0 <= i < capacity ==> memoryBuffer[i] == ZERO
      ensures Led() == Starting(pageCount) && NoDup(freeHot, freeCold)
      ensures Whole(capacity) ==> Valid() && sane && intact && Fresh() && Contents() == seq(capacity, _ => ZERO)
    {
      hide NoDup;
      hide InFree;
      hide Max1;
      hide Formed;
      hide Down;
      hide ZoneBorder;
      hide BlockOf;
      capacity := capacityBytes;
      var n := PagesIn(capacityBytes);
      pageCount := n;
      numBlocks := Max1(n / PAGES_PER_BLOCK);
      gcLowWatermark := LowWatermark(n);
      gcTargetFree := TargetFree(n);
      memoryBuffer := new Byte[capacityBytes](_ => ZERO);
      eccBuffer := new Check[(capacityBytes + 7) / 8](_ => Zeros(CHECK_BITS));
      l2pMap := seq(n, _ => -1);
      physValid := seq(n, _ => false);
      physOwnerLba := seq(n, _ => -1);
      blockValidCount := seq(Max1(n / PAGES_PER_BLOCK), _ => 0);
      var hot, cold := InitialLists(n);
      freeHot := hot;
      freeCold := cold;
      lbaHotCounters := seq(n, _ => 0);
      pageWrites := seq(n, _ => 0);
      pageDisturbs := seq(n, _ => 0);
      totalPhysicalBytesWritten := 0;
      sane := true;
      intact := true;
      new;
      if Whole(capacity) {
        WholePages(capacityBytes);
        assert Blank();
        BlankIsValid();
      }
    }

    /** The state the constructor leaves: nothing mapped, every page free and listed once. */
    ghost predicate Blank()
      reads this, memoryBuffer, eccBuffer
    {
      && capacity == pageCount * PAGE_SIZE && WholeBlocks(pageCount)
      && numBlocks == Max1(pageCount / PAGES_PER_BLOCK)
      && gcLowWatermark == LowWatermark(pageCount) && gcTargetFree == TargetFree(pageCount)
      && Sized(memoryBuffer, eccBuffer, pageCount) && (forall i :: 0 <= i < capacity ==> memoryBuffer[i] == ZERO)
      && (forall i :: 0 <= i < pageCount * CHUNKS ==> eccBuffer[i] == Zeros(CHECK_BITS))
      && Led() == Starting(pageCount)
      && pageWrites == pageDisturbs == seq(pageCount, _ => 0)
      && totalPhysicalBytesWritten == 0 && sane && intact
      && NoDup(freeHot, freeCold) && (forall p :: InFree(freeHot, freeCold, p) <==> 0 <= p < pageCount)
    }

    lemma BlankIsValid()
      requires Blank()
      ensures Valid() && Fresh() && Contents() == seq(capacity, _ => ZERO)
    {
      BlankShape();
      BlankStored();
      hide AllChecks;
      assert Coherent() by {
        StartsCoherent(pageCount, l2pMap, physValid, physOwnerLba, blockValidCount, freeHot, freeCold);
      }
      assert Fresh() by {
        StartsUnworn(pageCount, freeHot, freeCold, pageWrites, pageDisturbs);
      }
      hide Coherent;
      hide Fresh;
      hide Shape;
      hide NoDup;
      hide InFree;
      hide Flat;
      FlatOfNothing(pageCount, l2pMap, memoryBuffer[..]);
    }

    lemma BlankStored()
      requires Blank()
      ensures Stored()
    {
      hide AllChecks;
      hide Formed;
      hide NoDup;
      BlankChecks(pageCount, memoryBuffer[..], eccBuffer[..]);
    }

    lemma BlankShape()
      requires Blank()
      ensures Shape()
    {
      hide NoDup;
      SumZero(pageWrites);
      hide Sum;
    }

    // -------------------------------------------------------------- allocation

    /** Takes a page from the preferred zone's list, else from the other; -1 when both are empty. */
    method AllocatePhysicalPage(preferHot: bool) returns (p: int)
      requires Valid()
      modifies this`freeHot, this`freeCold, this`intact
      ensures Valid()
      ensures p < 0 <==> old(FreeCount()) == 0
      ensures p < 0 ==> freeHot == old(freeHot) && freeCold == old(freeCold) && intact == old(intact)
      ensures p >= 0 ==> p == NextPage(old(Led()), preferHot) && Led() == Taken(old(Led()), preferHot)
      ensures intact <==> old(intact) && SafeTake(old(Led()), preferHot)
      ensures p >= 0 ==>
                && p < pageCount && (intact <==> old(intact) && !physValid[p])
                && FreeCount() == old(FreeCount()) - 1
                && InFree(old(freeHot), old(freeCold), p)
                && (forall x :: InFree(freeHot, freeCold, x) ==> InFree(old(freeHot), old(freeCold), x))
                && (sane ==> !InFree(freeHot, freeCold, p))
    {
      hide AllChecks;
      hide Agree;
      hide CountersBelow;
      hide Sum;
      hide Formed;
      if preferHot {
        if freeHot != [] {
          p := TakeHot();
        } else if freeCold != [] {
          p := TakeCold();
        } else {
          p := -1;
        }
      } else {
        if freeCold != [] {
          p := TakeCold();
        } else if freeHot != [] {
          p := TakeHot();
        } else {
          p := -1;
        }
      }
    }

    method TakeHot() returns (p: int)
      requires Valid() && freeHot != []
      modifies this`freeHot, this`intact
      ensures Valid() && 0 <= p < pageCount && (intact <==> old(intact) && !physValid[p])
      ensures p == Last(old(freeHot)) && freeHot == old(freeHot)[..|old(freeHot)| - 1]
      ensures InFree(old(freeHot), freeCold, p)
      ensures forall x :: InFree(freeHot, freeCold, x) ==> InFree(old(freeHot), freeCold, x)
      ensures sane ==> !InFree(freeHot, freeCold, p)
    {
      hide AllChecks;
      hide CoherentAt;
      hide NoDup;
      hide Formed;
      hide Sum;
      ghost var led, t := Led(), Taken(Led(), true);
      p := freeHot[|freeHot| - 1];
      assert p == NextPage(led, true) && InFree(led.hot, led.cold, p);
      assert led.hot == t.hot + [p];
      if sane {
        TakenCoherent(pageCount, l2pMap, physValid, physOwnerLba, blockValidCount, led.hot, led.cold, t.hot, t.cold, p);
      }
      freeHot := freeHot[..|freeHot| - 1];
      assert Led() == t;
      intact := intact && !physValid[p];
    }

    method TakeCold() returns (p: int)
      requires Valid() && freeCold != []
      modifies this`freeCold, this`intact
      ensures Valid() && 0 <= p < pageCount && (intact <==> old(intact) && !physValid[p])
      ensures p == Last(old(freeCold)) && freeCold == old(freeCold)[..|old(freeCold)| - 1]
      ensures InFree(freeHot, old(freeCold), p)
      ensures forall x :: InFree(freeHot, freeCold, x) ==> InFree(freeHot, old(freeCold), x)
      ensures sane ==> !InFree(freeHot, freeCold, p)
    {
      hide AllChecks;
      hide CoherentAt;
      hide NoDup;
      hide Formed;
      hide Sum;
      ghost var led, t := Led(), Taken(Led(), false);
      p := freeCold[|freeCold| - 1];
      assert p == NextPage(led, false) && InFree(led.hot, led.cold, p);
      assert led.cold == t.cold + [p];
      if sane {
        TakenCoherent(pageCount, l2pMap, physValid, physOwnerLba, blockValidCount, led.hot, led.cold, t.hot, t.cold, p);
      }
      freeCold := freeCold[..|freeCold| - 1];
      assert Led() == t;
      intact := intact && !physValid[p];
    }

    // -------------------------------------------------------------- programming a page

    /** The bytes and codes of a newly allocated page: the old page or zeros, then the new data. */
    method ProgramPage(lp: nat, newPhys: nat, at: nat, data: seq<Byte>)
      requires Shape() && Stored()
      requires lp < pageCount && newPhys < pageCount && data != [] && at + |data| <= PAGE_SIZE
      modifies memoryBuffer, eccBuffer
      ensures Shape() && Stored()
      ensures OthersSame(old(memoryBuffer[..]), old(eccBuffer[..]), memoryBuffer[..], eccBuffer[..], pageCount, newPhys)
      ensures PageOf(pageCount, memoryBuffer[..], newPhys) == Splice(old(Logical(lp)), at, data)
    {
      hide ChecksMatch;
      hide Splice;
      hide Sum;
      hide FtlLedger.Formed;
      ghost var mem0, ecc0 := memoryBuffer[..], eccBuffer[..];
      var oldPhys := l2pMap[lp];
      assert -1 <= oldPhys < pageCount by {
        L2pInRange(lp);
      }
      assert (newPhys + 1) * PAGE_SIZE <= pageCount * PAGE_SIZE && (newPhys + 1) * CHUNKS <= pageCount * CHUNKS;
      if oldPhys >= 0 {
        assert (oldPhys + 1) * PAGE_SIZE <= pageCount * PAGE_SIZE && (oldPhys + 1) * CHUNKS <= pageCount * CHUNKS;
        assert ChecksMatch(PageOf(pageCount, mem0, oldPhys), ChecksOf(pageCount, ecc0, oldPhys));
        CopyPage(memoryBuffer, eccBuffer, pageCount, newPhys, oldPhys);
      } else {
        ClearPage(memoryBuffer, eccBuffer, pageCount, newPhys);
      }
      ghost var mem1, ecc1 := memoryBuffer[..], eccBuffer[..];
      StoreBytes(memoryBuffer, eccBuffer, pageCount, newPhys, at, data);
      OthersTransitive(mem0, ecc0, mem1, ecc1, memoryBuffer[..], eccBuffer[..], pageCount, newPhys);
      ProgramChecks(pageCount, mem0, ecc0, memoryBuffer[..], eccBuffer[..], newPhys);
    }

    lemma L2pInRange(lp: nat)
      requires Shape() && lp < pageCount
      ensures -1 <= l2pMap[lp] < pageCount
    {
      assert Led().l2p[lp] == l2pMap[lp];
    }

    /** Copies a page with its codes. */
    method CopyStored(dst: nat, src: nat)
      requires Sized(memoryBuffer, eccBuffer, pageCount) && Stored() && dst < pageCount && src < pageCount
      modifies memoryBuffer, eccBuffer
      ensures Stored()
      ensures OthersSame(old(memoryBuffer[..]), old(eccBuffer[..]), memoryBuffer[..], eccBuffer[..], pageCount, dst)
      ensures PageOf(pageCount, memoryBuffer[..], dst) == old(PageOf(pageCount, memoryBuffer[..], src))
      ensures ChecksOf(pageCount, eccBuffer[..], dst) == old(ChecksOf(pageCount, eccBuffer[..], src))
    {
      hide ChecksMatch;
      ghost var mem0, ecc0 := memoryBuffer[..], eccBuffer[..];
      assert ChecksMatch(PageOf(pageCount, mem0, src), ChecksOf(pageCount, ecc0, src));
      CopyPage(memoryBuffer, eccBuffer, pageCount, dst, src);
      ProgramChecks(pageCount, mem0, ecc0, memoryBuffer[..], eccBuffer[..], dst);
    }

    /** Makes newPhys the page of lp, and the page it had before, if any, stale. */
    method Remap(lp: nat, newPhys: nat, oldPhys: int)
      requires Shape() && lp < pageCount && newPhys < pageCount && -1 <= oldPhys < pageCount
      requires intact ==>
                 && Coherent() && !physValid[newPhys] && oldPhys == l2pMap[lp]
                 && (sane ==> !InFree(freeHot, freeCold, newPhys))
      modifies this`l2pMap, this`physValid, this`physOwnerLba, this`blockValidCount, this`pageWrites,
        this`totalPhysicalBytesWritten
      ensures Shape() && (intact ==> Coherent())
      ensures Led() == Mapped(old(Led()), lp, newPhys, oldPhys)
      ensures l2pMap == old(l2pMap)[lp := newPhys]
      ensures physValid == ValidAfter(old(physValid), newPhys, oldPhys)
      ensures pageWrites == old(pageWrites)[newPhys := old(pageWrites)[newPhys] + 1]
    {
      hide Sum;
      hide CountersBelow;
      hide Mapped;
      hide Formed;
      RemapMaps(lp, newPhys, oldPhys);
      SumIncrement(pageWrites, newPhys);
      pageWrites := pageWrites[newPhys := pageWrites[newPhys] + 1];
      totalPhysicalBytesWritten := totalPhysicalBytesWritten + PAGE_SIZE;
    }

    lemma NotListed(p: nat)
      requires sane ==> !InFree(freeHot, freeCold, p)
      ensures !InFree(Hot(), Cold(), p)
    {
    }

    method RemapMaps(lp: nat, newPhys: nat, oldPhys: int)
      requires Shape() && lp < pageCount && newPhys < pageCount && -1 <= oldPhys < pageCount
      requires intact ==>
                 && Coherent() && !physValid[newPhys] && oldPhys == l2pMap[lp]
                 && (sane ==> !InFree(freeHot, freeCold, newPhys))
      modifies this`l2pMap, this`physValid, this`physOwnerLba, this`blockValidCount
      ensures Shape() && (intact ==> Coherent())
      ensures Led() == Mapped(old(Led()), lp, newPhys, oldPhys)
      ensures l2pMap == old(l2pMap)[lp := newPhys]
      ensures physValid == ValidAfter(old(physValid), newPhys, oldPhys)
    {
      hide Sum;
      hide CoherentAt;
      hide Formed;
      hide BlockOf;
      hide Hot;
      hide Cold;
      hide InFree;
      BlockInRange(Led(), newPhys);
      if oldPhys >= 0 {
        BlockInRange(Led(), oldPhys);
      }
      if intact {
        NotListed(newPhys);
        RemapCoherent(pageCount, l2pMap, physValid, physOwnerLba, blockValidCount, Hot(), Cold(), lp, newPhys);
      }
      ghost var after := Mapped(Led(), lp, newPhys, oldPhys);
      l2pMap := l2pMap[lp := newPhys];
      physValid := physValid[newPhys := true];
      physOwnerLba := physOwnerLba[newPhys := lp];
      blockValidCount := blockValidCount[BlockOf(newPhys) := blockValidCount[BlockOf(newPhys)] + 1];
      if oldPhys >= 0 {
        physValid := physValid[oldPhys := false];
        physOwnerLba := physOwnerLba[oldPhys := -1];
        var less := blockValidCount[BlockOf(oldPhys)] - 1;
        blockValidCount := blockValidCount[BlockOf(oldPhys) := if less > 0 then less else 0];
      }
      assert Led() == after;
    }

    // -------------------------------------------------------------- garbage collection

    ghost function Seen(): View
      reads this, memoryBuffer
    {
      View(l2pMap, physValid, memoryBuffer[..])
    }

    ghost function Now(): Image
      reads this, memoryBuffer, eccBuffer
    {
      Image(l2pMap, memoryBuffer[..], eccBuffer[..])
    }

    /** Copies page p to the page newP, then maps p's owner there; a page without owner moves nothing. */
    method MoveTo(p: nat, newP: nat)
      requires Shape() && Stored() && p < pageCount && newP < pageCount
      requires intact ==>
                 && Coherent() && physValid[p] && !physValid[newP]
                 && (sane ==> !InFree(freeHot, freeCold, newP))
      modifies this`l2pMap, this`physValid, this`physOwnerLba, this`blockValidCount, this`pageWrites,
        this`totalPhysicalBytesWritten, memoryBuffer, eccBuffer
      ensures Shape() && Stored() && (intact ==> Coherent())
      ensures Led()
              == if old(physOwnerLba)[p] >= 0 then Mapped(old(Led()), old(physOwnerLba)[p], newP, p) else old(Led())
      ensures intact ==> SameLogical(pageCount, old(Now()), Now())
      ensures old(Agreeing()) && old(physValid)[p] ==>
                var owner := old(physOwnerLba)[p];
                && 0 <= owner < pageCount
                && (SeenRight(pageCount, old(Seen()), Seen(), owner, 0, []) <==>
                      !old(physValid)[newP] || Lucky(pageCount, old(Seen()), old(physOwnerLba)[newP], owner, 0, []))
      ensures intact ==> physValid == old(physValid)[newP := true][p := false]
      ensures intact ==> pageWrites == old(pageWrites)[newP := old(pageWrites)[newP] + 1]
    {
      hide CountersBelow;
      hide FreeInvalid;
      hide ChecksMatch;
      hide Sum;
      hide Mapped;
      hide AllChecks;
      hide SeenRight;
      hide Lucky;
      hide Splice;
      ghost var before, view, owners := Now(), Seen(), physOwnerLba;
      var owner := physOwnerLba[p];
      AllMapped();
      CopyStored(newP, p);
      assert owner < pageCount by {
        assert Led().owner[p] == owner;
      }
      if intact {
        UnmappedProgram(pageCount, l2pMap, before.mem, before.ecc, memoryBuffer[..], eccBuffer[..], newP);
        MoveSame(pageCount, before, memoryBuffer[..], eccBuffer[..], owner, p, newP);
      }
      if Agreeing() && physValid[p] {
        SpliceNone(PageOf(pageCount, before.mem, p));
        SeenRightExactly(pageCount, owners, view, before.ecc, memoryBuffer[..], eccBuffer[..], owner, newP, 0, []);
      }
      hide SameLogical;
      hide Formed;
      if owner >= 0 && owner < |l2pMap| {
        Remap(owner, newP, p);
      }
    }

    /** Moves one valid page out of the way, if a free page can be had. */
    method MoveValidPage(p: nat)
      requires Valid() && p < pageCount && physValid[p]
      modifies this`freeHot, this`freeCold, this`intact, this`l2pMap, this`physValid, this`physOwnerLba,
        this`blockValidCount, this`pageWrites, this`totalPhysicalBytesWritten, memoryBuffer, eccBuffer
      ensures Valid()
      ensures Led() == MovedOne(old(Led()), p)
      ensures intact <==> old(intact) && SafeMove(old(Led()), p)
      ensures intact ==> old(intact) && SameLogical(pageCount, old(Now()), Now())
      ensures intact && old(FreeCount()) > 0 ==> !physValid[p]
      ensures intact ==> NewFromFree(old(physValid), old(freeHot), old(freeCold), physValid)
    {
      hide SameLogical;
      hide AllChecks;
      hide CountersBelow;
      hide NoDup;
      hide Formed;
      hide Mapped;
      hide Taken;
      hide NextPage;
      hide Sum;
      var newP := AllocatePhysicalPage(false);
      if newP < 0 {
        SameLogicalRefl();
        return;
      }
      MoveTo(p, newP);
    }

    lemma SameLogicalRefl()
      requires Shape()
      ensures SameLogical(pageCount, Now(), Now())
    {
    }

    /** Moves the valid pages of a block, as long as free pages last. */
    method MoveValidPages(b: nat)
      requires Valid() && b < numBlocks
      modifies this`freeHot, this`freeCold, this`intact, this`l2pMap, this`physValid, this`physOwnerLba,
        this`blockValidCount, this`pageWrites, this`totalPhysicalBytesWritten, memoryBuffer, eccBuffer
      ensures Valid()
      ensures BlockStart(b) <= BlockEnd(pageCount, b) <= pageCount
      ensures Led() == MovedUpTo(old(Led()), BlockStart(b), BlockEnd(pageCount, b))
      ensures intact <==> old(intact) && SafeMoves(old(Led()), BlockStart(b), BlockEnd(pageCount, b))
      ensures intact ==> old(intact) && SameLogical(pageCount, old(Now()), Now())
      ensures sane && FreeCount() > 0 ==>
                NoneLeft(old(physValid), physValid, BlockStart(b), BlockEnd(pageCount, b))
      ensures FreeCount() <= old(FreeCount())
      ensures NoMoreFree(freeHot, freeCold, old(freeHot), old(freeCold))
    {
      hide SameLogical;
      hide CoherentAt;
      hide NoDup;
      hide InFree;
      hide Sum;
      hide AllChecks;
      hide SafeMove;
      hide Hot;
      hide Cold;
      hide Now;
      hide MovedOne;
      hide Formed;
      hide NoMoreFree;
      hide NewFromFree;
      hide NoneLeft;
      hide BlockStart;
      hide BlockEnd;
      hide BlockOf;
      SameLogicalRefl();
      if sane {
        ValidNotFree();
      }
      BlockFits(Led(), b);
      ghost var led0 := Led();
      var p := BlockStart(b);
      NoneLeftYet(physValid, physValid, p);
      while p < BlockEnd(pageCount, b)
        invariant Valid()
        invariant intact ==> old(intact) && SameLogical(pageCount, old(Now()), Now())
        invariant BlockStart(b) <= p <= BlockEnd(pageCount, b)
        invariant Led() == MovedUpTo(led0, BlockStart(b), p)
        invariant intact <==> old(intact) && SafeMoves(led0, BlockStart(b), p)
        invariant sane && FreeCount() > 0 ==> NoneLeft(led0.valid, physValid, BlockStart(b), p)
      {
        MovedTakes(led0, BlockStart(b), p);
        ghost var before, led := Now(), Led();
        if physValid[p] {
          MoveValidPage(p);
          if intact {
            SameLogicalTransitive(pageCount, old(Now()), before, Now());
          }
        } else {
          NothingToMove(Led(), p);
          NewFromFreeRefl(physValid, freeHot, freeCold);
        }
        if sane && FreeCount() > 0 {
          NoneLeftStep(led0.valid, led0.hot, led0.cold, led.valid, led.hot, led.cold, physValid, BlockStart(b), p);
        }
        p := p + 1;
      }
      MovedTakes(led0, BlockStart(b), p);
    }

    lemma ValidNotFree()
      requires Valid() && sane
      ensures forall q :: 0 <= q < pageCount && physValid[q] ==> !InFree(freeHot, freeCold, q)
    {
    }

    /** Frees the pages of a block that hold nothing, whether or not they were free already. */
    method EraseBlock(b: nat)
      requires Valid() && b < numBlocks
      modifies this`freeHot, this`freeCold, this`physOwnerLba, this`sane
      ensures Valid()
      ensures BlockStart(b) <= BlockEnd(pageCount, b) <= pageCount
      ensures Led() == FreedUpTo(old(Led()), BlockStart(b), BlockEnd(pageCount, b))
      ensures Erased(b, old(freeHot), old(freeCold))
      ensures intact ==> physOwnerLba == old(physOwnerLba)
      ensures old(sane) ==>
                (NoDup(freeHot, freeCold) <==>
                   forall p :: BlockStart(b) <= p < BlockEnd(pageCount, b) ==> !InFree(old(freeHot), old(freeCold), p))
      ensures sane <==> old(sane) && NoDup(freeHot, freeCold)
    {
      hide CoherentAt;
      hide NoDup;
      hide InFree;
      hide Sum;
      hide InvalidIn;
      hide BlockStart;
      hide BlockEnd;
      hide AllChecks;
      hide Formed;
      hide FreedUpTo;
      if sane {
        EraseKeepsListsExactlyWhen(b);
      }
      FreeStalePages(b);
      FreedMeansErased(b);
      if intact {
        Unlisted(pageCount, l2pMap, physValid, physOwnerLba, blockValidCount, Hot(), Cold());
      }
      sane := sane && NoDup(freeHot, freeCold);
    }

    /** Erasing block b leaves the free lists duplicate-free exactly when none of its pages was free. */
    lemma EraseKeepsListsExactlyWhen(b: nat)
      requires Valid() && sane && b < numBlocks
      ensures BlockStart(b) <= BlockEnd(pageCount, b) <= |physValid|
      ensures var freed := InvalidIn(physValid, BlockStart(b), BlockEnd(pageCount, b));
              var hot := if b < numBlocks / 5 then freeHot + freed else freeHot;
              var cold := if b < numBlocks / 5 then freeCold else freeCold + freed;
              NoDup(hot, cold) <==>
                forall p :: BlockStart(b) <= p < BlockEnd(pageCount, b) ==> !InFree(freeHot, freeCold, p)
    {
      hide AllChecks;
      BlockFits(Led(), b);
      hide Formed;
      assert FreeInvalid(pageCount, physValid, freeHot, freeCold);
      EraseNoDup(physValid, freeHot, freeCold, BlockStart(b), BlockEnd(pageCount, b));
    }

    /** The free lists are what they were with the block's invalid pages, ascending, put on the zone's end. */
    ghost predicate Erased(b: nat, hot: seq<int>, cold: seq<int>)
      requires Shape() && b < numBlocks
      reads this
    {
      BlockFits(Led(), b);
      var freed := InvalidIn(physValid, BlockStart(b), BlockEnd(pageCount, b));
      if b < numBlocks / 5 then freeHot == hot + freed && freeCold == cold
      else freeCold == cold + freed && freeHot == hot
    }

    method FreeStalePages(b: nat)
      requires Shape() && (intact ==> Coherent()) && b < numBlocks
      modifies this`freeHot, this`freeCold, this`physOwnerLba
      ensures Shape() && (intact ==> Coherent())
      ensures BlockStart(b) <= BlockEnd(pageCount, b) <= pageCount
      ensures Led() == FreedUpTo(old(Led()), BlockStart(b), BlockEnd(pageCount, b))
    {
      hide Coherent;
      hide FreedOne;
      hide BlockOf;
      hide BlockStart;
      hide BlockEnd;
      hide Formed;
      hide Sum;
      BlockFits(Led(), b);
      var start, end := BlockStart(b), BlockEnd(pageCount, b);
      ghost var led0 := Led();
      var p := start;
      while p < end
        invariant start <= p <= end && Shape() && (intact ==> Coherent())
        invariant Led() == FreedUpTo(led0, start, p)
      {
        if !physValid[p] {
          FreeOne(p);
        } else {
          NothingToFree(Led(), p);
        }
        p := p + 1;
      }
    }

    /** What the freeing does to the lists, and that it takes no owner away that the page should have. */
    twostate lemma FreedMeansErased(b: nat)
      requires old(Shape()) && Shape() && b < numBlocks && old(intact ==> Coherent())
      requires BlockStart(b) <= BlockEnd(pageCount, b) <= pageCount
      requires Led() == FreedUpTo(old(Led()), BlockStart(b), BlockEnd(pageCount, b))
      ensures Erased(b, old(freeHot), old(freeCold))
      ensures old(intact) ==> physOwnerLba == old(physOwnerLba)
    {
      hide CountersBelow;
      hide FreeInvalid;
      hide FreedUpTo;
      hide Sum;
      hide InvalidIn;
      BlockFits(Led(), b);
      FreedLists(old(Led()), BlockStart(b), BlockEnd(pageCount, b), b);
    }

    method FreeOne(p: nat)
      requires Shape() && (intact ==> Coherent()) && p < pageCount && !physValid[p]
      modifies this`freeHot, this`freeCold, this`physOwnerLba
      ensures Shape() && (intact ==> Coherent())
      ensures Led() == FreedOne(old(Led()), p)
      ensures if BlockOf(p) < numBlocks / 5 then freeHot == old(freeHot) + [p] && freeCold == old(freeCold)
              else freeCold == old(freeCold) + [p] && freeHot == old(freeHot)
      ensures intact ==> physOwnerLba == old(physOwnerLba)
    {
      hide CountersBelow;
      hide Sum;
      hide Formed;
      ghost var hot, cold := freeHot, freeCold;
      physOwnerLba := physOwnerLba[p := -1];
      if BlockOf(p) < numBlocks / 5 {
        freeHot := freeHot + [p];
      } else {
        freeCold := freeCold + [p];
      }
      assert Led() == FreedOne(old(Led()), p);
      assert forall x :: InFree(freeHot, freeCold, x) ==> x == p || InFree(hot, cold, x);
    }

    /** The block with the least score, the first of them; -1 when every score is INT_MAX or more. */
    method PickVictim() returns (candidate: int)
      requires Shape()
      ensures -1 <= candidate < numBlocks && candidate == Victim(Led())
      ensures candidate >= 0 ==> Score(Led(), candidate) < INT_MAX
      ensures candidate >= 0 ==> forall b: nat :: b < numBlocks ==>
                && Score(Led(), candidate) <= Score(Led(), b)
                && (b < candidate ==> Score(Led(), candidate) < Score(Led(), b))
      ensures candidate < 0 ==> NoVictim()
    {
      hide Formed;
      hide Sum;
      candidate := -1;
      var best := INT_MAX;
      for b := 0 to numBlocks
        invariant -1 <= candidate < b && candidate == VictimUpTo(Led(), b)
        invariant best == if candidate < 0 then INT_MAX else Score(Led(), candidate)
      {
        BlockFits(Led(), b);
        var hotScore := 0;
        for p := BlockStart(b) to BlockEnd(pageCount, b)
          invariant hotScore == HotScore(physOwnerLba, lbaHotCounters, BlockStart(b), p)
        {
          var owner := physOwnerLba[p];
          if owner >= 0 && owner < |lbaHotCounters| {
            hotScore := hotScore + AsInt32(lbaHotCounters[owner]);
          }
        }
        var metric := blockValidCount[b] * 16 + hotScore;
        assert metric == Score(Led(), b);
        if metric < best {
          best, candidate := metric, b;
        }
      }
      VictimIsFirstLeast(Led(), numBlocks);
    }

    ghost predicate NoVictim()
      requires Shape()
      reads this
    {
      forall b: nat :: b < numBlocks ==> Score(Led(), b) >= INT_MAX
    }

    lemma ErasedAll(b: nat, hot: seq<int>, cold: seq<int>)
      requires Shape() && b < numBlocks && Erased(b, hot, cold)
      ensures forall p :: BlockStart(b) <= p < BlockEnd(pageCount, b) ==> physValid[p] || InFree(freeHot, freeCold, p)
    {
      BlockFits(Led(), b);
      InvalidInExactly(physValid, BlockStart(b), BlockEnd(pageCount, b));
    }

    method ResetCounter(b: nat)
      requires Valid() && b < numBlocks
      modifies this`blockValidCount
      ensures Valid() && blockValidCount[b] == 0 && blockValidCount == old(blockValidCount)[b := 0]
    {
      hide AllChecks;
      hide Agree;
      hide FreeInvalid;
      hide NoDup;
      hide Sum;
      if intact {
        CounterZero(pageCount, physValid, blockValidCount, b);
      }
      hide CountersBelow;
      blockValidCount := blockValidCount[b := 0];
    }

    /** One pass: empty the victim, erase it, reset its counter. */
    method GcPass(b: nat)
      requires Valid() && b < numBlocks
      modifies this`freeHot, this`freeCold, this`intact, this`sane, this`l2pMap, this`physValid, this`physOwnerLba,
        this`blockValidCount, this`pageWrites, this`totalPhysicalBytesWritten, memoryBuffer, eccBuffer
      ensures Valid()
      ensures Led() == Pass(old(Led()), b)
      ensures old(sane) ==> intact
      ensures intact ==> old(intact) && SameLogical(pageCount, old(Now()), Now())
      ensures intact <==> old(intact) && SafePass(old(Led()), b)
      ensures sane <==> old(sane) && CleanPass(old(Led()), b)
      ensures old(sane) && CleanBlock(old(Led()), b) ==> sane
      ensures forall p :: BlockStart(b) <= p < BlockEnd(pageCount, b) ==> physValid[p] || InFree(freeHot, freeCold, p)
      ensures blockValidCount[b] == 0
      ensures old(sane) ==>
                || NoneLeft(old(physValid), physValid, BlockStart(b), BlockEnd(pageCount, b))
                || FreeCount() == |InvalidIn(physValid, BlockStart(b), BlockEnd(pageCount, b))|
    {
      hide SameLogical;
      hide CoherentAt;
      hide NoDup;
      hide Sum;
      hide InvalidIn;
      hide AllChecks;
      hide Formed;
      hide MovedUpTo;
      hide FreedUpTo;
      if CleanBlock(Led(), b) {
        CleanBlockIsEnough(Led(), b);
      }
      MoveValidPages(b);
      ghost var hot, cold := freeHot, freeCold;
      EraseBlock(b);
      ErasedAll(b, hot, cold);
      ResetCounter(b);
    }

    /** Collects until enough pages are free or a pass gains nothing. */
    method RunGC(targetFree: nat) returns (ghost passes: nat)
      requires Valid()
      modifies this`freeHot, this`freeCold, this`intact, this`sane, this`l2pMap, this`physValid, this`physOwnerLba,
        this`blockValidCount, this`pageWrites, this`totalPhysicalBytesWritten, memoryBuffer, eccBuffer
      ensures Valid()
      ensures Led() == Collected(old(Led()), targetFree) && passes == Passes(old(Led()), targetFree)
      ensures intact ==> old(intact) && SameLogical(pageCount, old(Now()), Now())
      ensures old(sane) && passes <= 1 ==> intact
      ensures intact <==> old(intact) && SafeCollection(old(Led()), targetFree)
      ensures sane <==> old(sane) && CleanCollection(old(Led()), targetFree)
      ensures old(sane) && passes <= 1 && old(FreeCount()) == 0 ==> sane
      ensures passes == 0 || passes <= targetFree - old(FreeCount())
      ensures passes == 0 ==> sane == old(sane) && freeHot == old(freeHot) && freeCold == old(freeCold)
      ensures passes == 0 ==> Now() == old(Now())
      ensures old(FreeCount()) >= targetFree ==> passes == 0
      ensures passes == 0 ==> FreeCount() >= targetFree || NoVictim()
    {
      hide SameLogical;
      hide Coherent;
      hide NoDup;
      hide Formed;
      hide Sum;
      hide Pass;
      hide Victim;
      hide Score;
      hide AllChecks;
      hide Collected;
      hide Passes;
      hide CleanBlock;
      hide CleanPass;
      hide NoneLeft;
      hide InvalidIn;
      hide BlockStart;
      hide BlockEnd;
      hide Shape;
      hide Valid;
      hide Collecting;
      hide SafeCollection;
      hide SafePass;
      hide CleanCollection;
      ValidHasShape();
      SameLogicalRefl();
      passes := 0;
      ghost var led0 := Led();
      CollectingBegins(led0, targetFree);
      while FreeCount() < targetFree
        invariant Valid() && Shape() && Formed(Led())
        invariant intact ==> old(intact) && SameLogical(pageCount, old(Now()), Now())
        invariant old(sane) && passes <= 1 ==> intact
        invariant passes == 0 ==> sane == old(sane) && Led() == led0 && Now() == old(Now())
        invariant old(FreeCount()) + passes <= FreeCount()
        invariant passes > 0 ==> FreeCount() < targetFree
        invariant Collecting(led0, targetFree, Led(), passes)
        invariant old(sane) && CleanCollection(led0, targetFree) <==> sane && CleanCollection(Led(), targetFree)
        invariant old(intact) && SafeCollection(led0, targetFree) <==> intact && SafeCollection(Led(), targetFree)
        decreases targetFree - FreeCount()
      {
        var initialFree := FreeCount();
        ghost var before := Now();
        var candidate := PickVictim();
        CollectingStep(led0, targetFree, Led(), passes);
        CleanStep(Led(), targetFree);
        SafeStep(Led(), targetFree);
        if candidate == -1 {
          break;
        }
        GcPass(candidate);
        ValidHasShape();
        passes := passes + 1;
        if intact {
          SameLogicalTransitive(pageCount, old(Now()), before, Now());
        }
        var currentFree := FreeCount();
        if currentFree <= initialFree || currentFree >= targetFree {
          break;
        }
      }
      if FreeCount() >= targetFree && Collecting(led0, targetFree, Led(), passes) {
        CollectingEnds(led0, targetFree, Led(), passes);
        CleanStep(Led(), targetFree);
        SafeStep(Led(), targetFree);
      }
      if passes <= 1 && Free(led0) == 0 {
        NothingFreeIsClean(led0, targetFree);
      }
    }

    // -------------------------------------------------------------- writing

    /** Puts the segment into the page newPhys, on top of lp's old bytes, and maps lp there. */
    method SegmentInto(lp: nat, newPhys: nat, at: nat, data: seq<Byte>)
      requires Valid() && lp < pageCount && newPhys < pageCount && data != [] && at + |data| <= PAGE_SIZE
      requires (intact ==> !physValid[newPhys]) && (sane ==> !InFree(freeHot, freeCold, newPhys))
      modifies this`l2pMap, this`physValid, this`physOwnerLba, this`blockValidCount, this`pageWrites,
        this`totalPhysicalBytesWritten, this`pageDisturbs, memoryBuffer, eccBuffer
      ensures Valid()
      ensures lp * PAGE_SIZE + at + |data| <= capacity && l2pMap == old(l2pMap)[lp := newPhys]
      ensures -1 <= old(l2pMap)[lp] < pageCount && Led() == Mapped(old(Led()), lp, newPhys, old(l2pMap)[lp])
      ensures intact ==> Contents() == Splice(old(Contents()), lp * PAGE_SIZE + at, data)
      ensures Logical(lp) == Splice(old(Logical(lp)), at, data)
      ensures old(Agreeing()) ==>
                (SeenRight(pageCount, old(Seen()), Seen(), lp, at, data) <==>
                   !old(physValid)[newPhys] || Lucky(pageCount, old(Seen()), old(physOwnerLba)[newPhys], lp, at, data))
      ensures pageWrites == old(pageWrites)[newPhys := old(pageWrites)[newPhys] + 1]
      ensures pageDisturbs == Disturbed(old(pageDisturbs), newPhys)
    {
      hide CoherentAt;
      hide Splice;
      hide Sum;
      hide Contents;
      hide LogicalPage;
      hide AllChecks;
      hide Mapped;
      hide Formed;
      hide OthersSame;
      hide NoDup;
      hide InFree;
      hide SeenRight;
      hide Lucky;
      hide Agree;
      hide ValidAfter;
      AllMapped();
      ghost var before, valid, owner := Now(), physValid, physOwnerLba;
      ghost var view := Seen();
      assert Viewable(pageCount, view);
      SegmentPlaced(lp, newPhys, at, data);
      if Agree(pageCount, before.l2p, valid, owner) {
        PlacedPage(before, lp, newPhys, at, data);
        SeenRightExactly(pageCount, owner, view, before.ecc, memoryBuffer[..], eccBuffer[..], lp, newPhys, at, data);
      }
    }

    lemma PlacedPage(before: Image, lp: nat, newPhys: nat, at: nat, data: seq<Byte>)
      requires Shape() && ImageFits(pageCount, before)
      requires lp < pageCount && newPhys < pageCount && at + |data| <= PAGE_SIZE
      requires l2pMap == before.l2p[lp := newPhys]
      requires Logical(lp) == Splice(LogicalPage(pageCount, before.l2p, before.mem, lp), at, data)
      ensures PageOf(pageCount, memoryBuffer[..], newPhys)
           == Splice(LogicalPage(pageCount, before.l2p, before.mem, lp), at, data)
    {
    }

    /** The part of it that touches the store. */
    method SegmentPlaced(lp: nat, newPhys: nat, at: nat, data: seq<Byte>)
      requires Shape() && Stored()
      requires lp < pageCount && newPhys < pageCount && data != [] && at + |data| <= PAGE_SIZE
      requires intact ==> Coherent() && !physValid[newPhys] && (sane ==> !InFree(freeHot, freeCold, newPhys))
      modifies this`l2pMap, this`physValid, this`physOwnerLba, this`blockValidCount, this`pageWrites,
        this`totalPhysicalBytesWritten, this`pageDisturbs, memoryBuffer, eccBuffer
      ensures Shape() && Stored() && (intact ==> Coherent())
      ensures lp * PAGE_SIZE + at + |data| <= capacity && l2pMap == old(l2pMap)[lp := newPhys]
      ensures -1 <= old(l2pMap)[lp] < pageCount && Led() == Mapped(old(Led()), lp, newPhys, old(l2pMap)[lp])
      ensures physValid == ValidAfter(old(physValid), newPhys, old(l2pMap)[lp])
      ensures intact ==> Contents() == Splice(old(Contents()), lp * PAGE_SIZE + at, data)
      ensures Logical(lp) == Splice(old(Logical(lp)), at, data)
      ensures OthersSame(old(memoryBuffer[..]), old(eccBuffer[..]), memoryBuffer[..], eccBuffer[..], pageCount, newPhys)
      ensures pageWrites == old(pageWrites)[newPhys := old(pageWrites)[newPhys] + 1]
      ensures pageDisturbs == Disturbed(old(pageDisturbs), newPhys)
    {
      hide CoherentAt;
      hide Splice;
      hide Sum;
      hide Flat;
      hide AllChecks;
      hide Mapped;
      hide Formed;
      hide InFree;
      hide ValidAfter;
      hide ImageFits;
      hide NoDup;
      hide OthersSame;
      hide LogicalPage;
      hide PageOf;
      ghost var before := Now();
      AllMapped();
      var oldPhys := l2pMap[lp];
      L2pInRange(lp);
      assert (lp + 1) * PAGE_SIZE <= capacity;
      ProgramPage(lp, newPhys, at, data);
      if intact {
        Unmapped(newPhys);
      }
      Remap(lp, newPhys, oldPhys);
      AllMapped();
      MappedReads(before, Now(), lp, newPhys);
      if intact {
        PlacedSplices(before, Now(), lp, newPhys, at, data);
      }
      if pageCount > 1 {
        var neighbour := (newPhys + 1) % pageCount;
        pageDisturbs := pageDisturbs[neighbour := pageDisturbs[neighbour] + 1];
      }
    }

    lemma MappedReads(before: Image, after: Image, lp: nat, newPhys: nat)
      requires ImageFits(pageCount, before) && ImageFits(pageCount, after) && lp < pageCount && newPhys < pageCount
      requires after.l2p == before.l2p[lp := newPhys]
      ensures LogicalPage(pageCount, after.l2p, after.mem, lp) == PageOf(pageCount, after.mem, newPhys)
    {
    }

    /** Programming an unmapped page with the segment and mapping lp there splices the segment in. */
    lemma PlacedSplices(before: Image, after: Image, lp: nat, newPhys: nat, at: nat, data: seq<Byte>)
      requires ImageFits(pageCount, before) && ImageFits(pageCount, after) && lp < pageCount && newPhys < pageCount
      requires at + |data| <= PAGE_SIZE && after.l2p == before.l2p[lp := newPhys]
      requires forall x :: 0 <= x < pageCount ==> before.l2p[x] < pageCount && before.l2p[x] != newPhys
      requires OthersSame(before.mem, before.ecc, after.mem, after.ecc, pageCount, newPhys)
      requires PageOf(pageCount, after.mem, newPhys)
                 == Splice(LogicalPage(pageCount, before.l2p, before.mem, lp), at, data)
      ensures lp * PAGE_SIZE + at + |data| <= pageCount * PAGE_SIZE
      ensures Flat(pageCount, after.l2p, after.mem)
                == Splice(Flat(pageCount, before.l2p, before.mem), lp * PAGE_SIZE + at, data)
    {
      hide Splice;
      hide Flat;
      hide OthersSame;
      UnmappedProgram(pageCount, before.l2p, before.mem, before.ecc, after.mem, after.ecc, newPhys);
      SegmentSplices(before, after, lp, newPhys, at, data);
    }

    /** The forward and the reverse map agree. */
    ghost predicate Agreeing()
      reads this
    {
      Agree(pageCount, l2pMap, physValid, physOwnerLba)
    }

    lemma Unmapped(p: nat)
      requires Shape() && Coherent() && p < pageCount && !physValid[p]
      ensures forall lp :: 0 <= lp < pageCount ==> l2pMap[lp] < pageCount && l2pMap[lp] != p
    {
    }

    lemma AllMapped()
      requires Shape()
      ensures ImageFits(pageCount, Now())
    {
    }

    lemma SegmentSplices(before: Image, after: Image, lp: nat, newPhys: nat, at: nat, data: seq<Byte>)
      requires ImageFits(pageCount, before) && ImageFits(pageCount, after) && lp < pageCount && newPhys < pageCount
      requires at + |data| <= PAGE_SIZE && after.l2p == before.l2p[lp := newPhys]
      requires forall x: nat :: x < pageCount ==>
                 LogicalPage(pageCount, before.l2p, after.mem, x) == LogicalPage(pageCount, before.l2p, before.mem, x)
      requires PageOf(pageCount, after.mem, newPhys)
                 == Splice(LogicalPage(pageCount, before.l2p, before.mem, lp), at, data)
      ensures lp * PAGE_SIZE + at + |data| <= pageCount * PAGE_SIZE
      ensures Flat(pageCount, after.l2p, after.mem)
                == Splice(Flat(pageCount, before.l2p, before.mem), lp * PAGE_SIZE + at, data)
    {
      hide Splice;
      hide Flat;
      forall x: nat | x < pageCount && x != lp
        ensures LogicalPage(pageCount, after.l2p, after.mem, x) == LogicalPage(pageCount, before.l2p, before.mem, x)
      {
        assert LogicalPage(pageCount, before.l2p, after.mem, x) == LogicalPage(pageCount, after.l2p, after.mem, x);
      }
      FlatSplice(pageCount, before.l2p, before.mem, after.l2p, after.mem, lp, at, data);
    }

    ghost predicate Fresh()
      reads this
    {
      Unworn(pageCount, freeHot, freeCold, pageWrites, pageDisturbs)
    }

    /** The body of the write loop: one page's part of the data. */
    method WriteSegment(lp: nat, at: nat, data: seq<Byte>) returns (ok: bool)
      requires Valid() && lp < pageCount && data != [] && at + |data| <= PAGE_SIZE
      modifies this, memoryBuffer, eccBuffer
      ensures Valid()
      ensures lp * PAGE_SIZE + at + |data| <= capacity
      ensures (ok, Led()) == SegmentWritten(old(Led()), lp)
      ensures intact ==> old(intact)
      ensures intact <==> old(intact) && SafeSegment(old(Led()), lp)
      ensures sane <==> old(sane) && CleanSegment(old(Led()), lp)
      ensures intact ==>
                Contents() == if ok then Splice(old(Contents()), lp * PAGE_SIZE + at, data) else old(Contents())
      ensures old(FreeCount()) > 0 ==> Logical(lp) == Splice(old(Logical(lp)), at, data)
      ensures !ok ==> FreeCount() == 0
      ensures ok ==> Free(Ready(Heated(old(Led()), lp))) > 0
      ensures ok && old(intact) && SafeReady(Heated(old(Led()), lp)) ==>
                (SeenRight(pageCount, old(Seen()), Seen(), lp, at, data) <==>
                   SafeSegment(old(Led()), lp)
                   || Lucky(pageCount, old(Seen()), Robbed(old(Led()), lp), lp, at, data))
      ensures old(FreeCount()) > 0 ==> ok && sane == old(sane) && FreeCount() == old(FreeCount()) - 1
      ensures old(FreeCount()) > 0 && sane && old(Fresh()) ==> Fresh()
      ensures lbaHotCounters == old(lbaHotCounters)[lp := Hotter(old(lbaHotCounters)[lp])]
    {
      hide SegmentWritten;
      hide CleanSegment;
      hide SafeSegment;
      hide Disturbed;
      hide Heated;
      hide Valid;
      hide Shape;
      hide Splice;
      hide Unworn;
      hide Flat;
      hide LogicalPage;
      hide Mapped;
      hide Taken;
      hide NextPage;
      hide Collected;
      hide CleanCollection;
      hide SafeCollection;
      hide Ready;
      hide Hotter;
      hide Passes;
      hide Score;
      hide SameLogical;
      hide InFree;
      hide Formed;
      hide SafeTake;
      hide Robbed;
      hide SafeReady;
      hide SeenRight;
      hide SameSeen;
      hide Lucky;
      hide Agreeing;
      hide NoVictim;
      ValidHasShape();
      assert (lp + 1) * PAGE_SIZE <= capacity;
      ghost var seen, led0 := Seen(), Led();
      SegmentOutcome(led0, lp);
      var preferHot := CountWrite(lp);
      ValidHasShape();
      var newPhys := AllocateOrCollect(preferHot);
      ValidHasShape();
      if newPhys < 0 {
        return false;
      }
      ghost var between, owner := Seen(), physOwnerLba[newPhys];
      RobbedIs(led0, lp, Led(), newPhys);
      SegmentInto(lp, newPhys, at, data);
      ValidHasShape();
      if SameSeen(pageCount, seen, between) {
        SeenAlike(pageCount, seen, between, Seen(), owner, lp, at, data);
      }
      ok := true;
    }

    /** Counts a write of lp, and says whether that makes the page hot. */
    method CountWrite(lp: nat) returns (preferHot: bool)
      requires Valid() && lp < pageCount
      modifies this`lbaHotCounters
      ensures Valid() && Led() == Heated(old(Led()), lp)
      ensures lbaHotCounters == old(lbaHotCounters)[lp := Hotter(old(lbaHotCounters)[lp])]
      ensures preferHot <==> lbaHotCounters[lp] >= HOT_THRESHOLD
    {
      hide CoherentAt;
      hide NoDup;
      hide Sum;
      hide AllChecks;
      lbaHotCounters := lbaHotCounters[lp := Hotter(lbaHotCounters[lp])];
      preferHot := lbaHotCounters[lp] >= HOT_THRESHOLD;
      assert Led() == Heated(old(Led()), lp);
    }

    /** Takes a free page, collecting garbage once if there is none. */
    method AllocateOrCollect(preferHot: bool) returns (p: int)
      requires Valid()
      modifies this, memoryBuffer, eccBuffer
      ensures Valid() && p < pageCount
      ensures p < 0 <==> Free(Ready(old(Led()))) == 0
      ensures p < 0 ==> Led() == Ready(old(Led()))
      ensures p >= 0 ==>
                p == NextPage(Ready(old(Led())), preferHot) && Led() == Taken(Ready(old(Led())), preferHot)
      ensures intact ==> old(intact) && Contents() == old(Contents())
      ensures old(intact) && SafeReady(old(Led())) ==> Agreeing() && SameSeen(pageCount, old(Seen()), Seen())
      ensures intact <==> old(intact) && SafeReady(old(Led())) && SafeTake(Ready(old(Led())), preferHot)
      ensures sane <==> old(sane) && (old(FreeCount()) > 0 || CleanCollection(old(Led()), gcTargetFree))
      ensures p < 0 ==> FreeCount() == 0 && (Passes(old(Led()), gcTargetFree) > 0 || NoVictim())
      ensures p >= 0 ==> (intact ==> !physValid[p]) && (sane ==> !InFree(freeHot, freeCold, p))
      ensures lbaHotCounters == old(lbaHotCounters) && pageDisturbs == old(pageDisturbs)
      ensures old(FreeCount()) > 0 ==>
                && p >= 0 && sane == old(sane) && FreeCount() == old(FreeCount()) - 1 && pageWrites == old(pageWrites)
                && l2pMap == old(l2pMap) && memoryBuffer[..] == old(memoryBuffer[..])
      ensures old(FreeCount()) > 0 && sane && old(Fresh()) ==>
                Unworn(pageCount, freeHot, freeCold, pageWrites[p := pageWrites[p] + 1], Disturbed(pageDisturbs, p))
    {
      hide CoherentAt;
      hide NoDup;
      hide InFree;
      hide Unworn;
      hide Flat;
      hide Sum;
      hide SameLogical;
      hide AllChecks;
      hide Formed;
      hide Taken;
      hide NextPage;
      hide Collected;
      hide Passes;
      hide CleanCollection;
      hide SafeCollection;
      hide Score;
      hide SameSeen;
      hide Agree;
      SeenSelf();
      p := AllocatePhysicalPage(preferHot);
      if p < 0 {
        ghost var before, valid, owner := Now(), physValid, physOwnerLba;
        ghost var passes := RunGC(gcTargetFree);
        if intact {
          IntactAgrees();
          SameLogicalFlat(pageCount, before, Now());
          AgreeingSeen(pageCount, before, valid, owner, Now(), physValid, physOwnerLba);
        }
        p := AllocatePhysicalPage(preferHot);
      } else if sane && old(Fresh()) {
        UnwornStep(pageCount, old(freeHot), old(freeCold), freeHot, freeCold, pageWrites, pageDisturbs, p);
      }
    }

    lemma IntactAgrees()
      requires Shape() && Coherent()
      ensures Agreeing()
    {
    }

    lemma SeenSelf()
      requires Valid()
      ensures SameSeen(pageCount, Seen(), Seen()) && (intact ==> Agreeing())
    {
      AllMapped();
    }

    /** Writes src at offset; done counts the bytes that were stored before space ran out, passes those of the
        collection after the last page. */
    method Write(offset: nat, src: seq<Byte>) returns (ok: bool, ghost done: nat, ghost passes: nat)
      requires Valid()
      modifies this, memoryBuffer, eccBuffer
      ensures Valid()
      ensures offset + |src| > capacity ==> !ok && done == 0 && unchanged(this, memoryBuffer, eccBuffer)
      ensures offset + |src| <= capacity ==> (ok, done, Led()) == Written(old(Led()), offset, |src|)
      ensures intact ==> old(intact)
      ensures done <= |src| && (ok ==> done == |src|)
      ensures offset + |src| <= capacity && intact ==> Contents() == Splice(old(Contents()), offset, src[..done])
      ensures offset + |src| <= capacity ==> (intact <==> old(intact) && SafeWrite(old(Led()), offset, |src|))
      ensures offset + |src| <= capacity ==> (sane <==> old(sane) && CleanWrite(old(Led()), offset, |src|))
      ensures offset + |src| <= capacity && old(sane) && CleanRange(old(Led()), offset, |src|) && passes <= 1 ==> intact
      ensures offset + |src| <= capacity && old(sane) && old(FreeCount()) >= Segments(offset, |src|) ==>
                ok && (passes <= 1 ==> intact)
      ensures offset + |src| <= capacity && old(sane)
              && old(FreeCount()) >= Segments(offset, |src|) + gcLowWatermark ==>
                && ok && sane && FreeCount() == old(FreeCount()) - Segments(offset, |src|) && passes == 0
                && (old(Fresh()) ==> Fresh())
      ensures offset + |src| <= capacity && old(FreeCount()) > 0 && passes == 0 ==> OnePageStored(offset, src)
      ensures offset + |src| <= capacity ==> passes == ClosingPasses(old(Led()), offset, |src|)
      ensures !ok ==> offset + |src| > capacity || FreeCount() == 0
      ensures ok ==> FreeCount() >= gcLowWatermark || passes > 0 || NoVictim()
    {
      hide CoherentAt;
      hide NoDup;
      hide Splice;
      hide Unworn;
      hide Flat;
      hide Sum;
      hide SameLogical;
      hide AllChecks;
      hide Formed;
      hide RangeWritten;
      hide Collected;
      hide Passes;
      hide CleanCollection;
      hide SafeCollection;
      hide CleanRange;
      hide SafeRange;
      hide Score;
      done, passes := 0, 0;
      if |src| > capacity || offset > capacity - |src| {
        return false, 0, 0;
      }
      ok, done := WriteSegments(offset, src);
      if !ok {
        return;
      }
      passes := CollectWhenLow();
    }

    method CollectWhenLow() returns (ghost passes: nat)
      requires Valid()
      modifies this`freeHot, this`freeCold, this`intact, this`sane, this`l2pMap, this`physValid, this`physOwnerLba,
        this`blockValidCount, this`pageWrites, this`totalPhysicalBytesWritten, memoryBuffer, eccBuffer
      ensures Valid()
      ensures old(FreeCount()) >= gcLowWatermark ==> passes == 0 && unchanged(this, memoryBuffer, eccBuffer)
      ensures old(FreeCount()) < gcLowWatermark ==>
                && Led() == Collected(old(Led()), gcTargetFree) && passes == Passes(old(Led()), gcTargetFree)
                && (intact <==> old(intact) && SafeCollection(old(Led()), gcTargetFree))
                && (sane <==> old(sane) && CleanCollection(old(Led()), gcTargetFree))
      ensures passes == 0 ==> Now() == old(Now())
      ensures old(sane) && passes <= 1 ==> intact
      ensures intact ==> old(intact) && Contents() == old(Contents())
      ensures FreeCount() >= gcLowWatermark || passes > 0 || NoVictim()
    {
      hide CoherentAt;
      hide NoDup;
      hide Flat;
      hide Sum;
      hide SameLogical;
      hide AllChecks;
      hide Formed;
      hide Collected;
      hide Passes;
      hide CleanCollection;
      hide SafeCollection;
      hide Score;
      passes := 0;
      if FreeCount() < gcLowWatermark {
        ghost var before := Now();
        passes := RunGC(gcTargetFree);
        if intact {
          SameLogicalFlat(pageCount, before, Now());
        }
      }
    }

    lemma WriteBegins(offset: nat, size: nat)
      requires Valid() && offset + size <= capacity
      ensures Shape() && capacity == pageCount * PAGE_SIZE && Formed(Led()) && |Led().l2p| == pageCount
      ensures Underway(Led(), offset, size, Led(), 0)
      ensures CleanFrom(Led(), offset, size, Led(), 0) <==> CleanRange(Led(), offset, size)
      ensures SafeFrom(Led(), offset, size, Led(), 0) <==> SafeRange(Led(), offset, size)
      ensures OnePage(offset, size) ==>
                && offset / PAGE_SIZE < pageCount && offset % PAGE_SIZE + size <= PAGE_SIZE
                && FirstPart(offset, size) == size
    {
      hide RangeWritten;
      hide CleanRange;
      hide SafeRange;
      if OnePage(offset, size) {
        InStore(pageCount, offset, size);
      }
    }

    lemma ValidHasShape()
      requires Valid()
      ensures Shape() && (sane ==> intact) && capacity == pageCount * PAGE_SIZE
      ensures gcTargetFree == TargetFree(pageCount) && gcLowWatermark == LowWatermark(pageCount)
      ensures Formed(Led()) && |Led().l2p| == pageCount && |Led().blockValid| == numBlocks
      ensures |l2pMap| == |physValid| == |physOwnerLba| == |lbaHotCounters| == pageCount
    {
    }

    method WriteSegments(offset: nat, src: seq<Byte>) returns (ok: bool, ghost done: nat)
      requires Valid() && offset + |src| <= capacity
      modifies this, memoryBuffer, eccBuffer
      ensures Valid()
      ensures (ok, done, Led()) == RangeWritten(old(Led()), offset, |src|)
      ensures intact ==> old(intact)
      ensures done <= |src| && (ok ==> done == |src|)
      ensures !ok ==> FreeCount() == 0
      ensures intact ==> Contents() == Splice(old(Contents()), offset, src[..done])
      ensures intact <==> old(intact) && SafeRange(old(Led()), offset, |src|)
      ensures sane <==> old(sane) && CleanRange(old(Led()), offset, |src|)
      ensures old(sane) && old(FreeCount()) >= Segments(offset, |src|) ==>
                && ok && sane && FreeCount() == old(FreeCount()) - Segments(offset, |src|)
                && (old(Fresh()) ==> Fresh())
      ensures old(FreeCount()) > 0 ==> OnePageStored(offset, src)
    {
      hide Led;
      hide FreeCount;
      hide Coherent;
      hide NoDup;
      hide Fresh;
      hide Contents;
      hide AllChecks;
      hide SegmentWritten;
      hide CleanSegment;
      hide SafeSegment;
      hide Formed;
      hide Logical;
      hide RangeWritten;
      hide CleanRange;
      hide SafeRange;
      hide FirstPart;
      hide Shape;
      hide CleanFrom;
      hide SafeFrom;
      hide Underway;
      hide Valid;
      hide Splice;
      hide Segments;
      hide OnePage;
      WriteBegins(offset, |src|);
      ghost var contents, free, led0 := Contents(), FreeCount(), Led();
      ghost var lp0, at0, single := offset / PAGE_SIZE, offset % PAGE_SIZE, free > 0 && OnePage(offset, |src|);
      ghost var page := if single then Logical(lp0) else ZeroPage();
      ghost var stored := if single then Splice(page, at0, src) else ZeroPage();
      var startByte, endByte, written := offset, offset + |src|, 0;
      ghost var budget := old(sane) && free >= Segments(offset, |src|);
      SpliceNothing(contents, offset, src);
      while startByte < endByte
        invariant Valid() && Shape()
        invariant written <= |src| && startByte == offset + written && endByte == offset + |src| <= capacity
        invariant intact ==> old(intact) && Contents() == Splice(contents, offset, src[..written])
        invariant budget ==>
                    sane && FreeCount() == free - Segments(offset, |src|) + Segments(startByte, |src| - written)
        invariant budget && old(Fresh()) ==> Fresh()
        invariant Underway(led0, offset, |src|, Led(), written)
        invariant old(intact) && SafeRange(led0, offset, |src|) <==>
                    intact && SafeFrom(led0, offset, |src|, Led(), written)
        invariant old(sane) && CleanRange(led0, offset, |src|) <==>
                    sane && CleanFrom(led0, offset, |src|, Led(), written)
        invariant written == 0 ==> FreeCount() == free
        invariant single && written == 0 ==> Logical(lp0) == page
        invariant single && written > 0 ==> written == |src| && Logical(lp0) == stored
        decreases endByte - startByte
      {
        UnderwayStep(led0, offset, |src|, Led(), written);
        var toWrite; ghost var lp;
        FirstPartSegments(startByte, |src| - written);
        ok, lp, toWrite := WriteNext(offset, src, written);
        ValidHasShape();
        if !ok {
          done := written;
          return;
        }
        SpliceNext(contents, offset, src, written, written + toWrite);
        assert written == 0 && toWrite == |src| ==> src[written..written + toWrite] == src;
        startByte := startByte + toWrite;
        written := written + toWrite;
      }
      ok, done := true, |src|;
      assert src[..|src|] == src;
      UnderwayEnds(led0, offset, |src|, Led());
      NoSegments(endByte);
    }

    /** When src lies in one page, that page reads as its old bytes with src on top. */
    twostate predicate OnePageStored(new offset: nat, new src: seq<Byte>)
      reads this, memoryBuffer
    {
      OnePage(offset, |src|) && offset + |src| <= pageCount * PAGE_SIZE && old(Shape()) && Shape() ==>
        (InStore(pageCount, offset, |src|);
         Logical(offset / PAGE_SIZE) == Splice(old(Logical(offset / PAGE_SIZE)), offset % PAGE_SIZE, src))
    }

    /** The segment that starts after the first bytes of src. */
    method WriteNext(offset: nat, src: seq<Byte>, written: nat) returns (ok: bool, ghost lp: nat, toWrite: nat)
      requires Valid() && written < |src| && offset + |src| <= capacity
      modifies this, memoryBuffer, eccBuffer
      ensures Valid() && written + toWrite <= |src| && toWrite == FirstPart(offset + written, |src| - written)
      ensures lp == (offset + written) / PAGE_SIZE && lp < pageCount
      ensures (ok, Led()) == SegmentWritten(old(Led()), lp)
      ensures intact <==> old(intact) && SafeSegment(old(Led()), lp)
      ensures sane <==> old(sane) && CleanSegment(old(Led()), lp)
      ensures intact ==> old(intact)
      ensures |src[written..written + toWrite]| == toWrite && offset + written + toWrite <= |old(Contents())|
      ensures intact ==>
                Contents() == if ok then Splice(old(Contents()), offset + written, src[written..written + toWrite])
                              else old(Contents())
      ensures !ok ==> FreeCount() == 0
      ensures old(FreeCount()) > 0 ==> ok && sane == old(sane) && FreeCount() == old(FreeCount()) - 1
      ensures old(FreeCount()) > 0 && sane && old(Fresh()) ==> Fresh()
      ensures old(FreeCount()) > 0 ==> OnePageStored(offset + written, src[written..written + toWrite])
    {
      hide Shape;
      hide Valid;
      hide Fresh;
      hide Contents;
      hide Splice;
      hide SegmentWritten;
      hide CleanSegment;
      hide SafeSegment;
      hide SafeReady;
      hide Ready;
      hide Robbed;
      hide SeenRight;
      hide Lucky;
      hide Formed;
      hide Logical;
      hide Segments;
      ValidHasShape();
      var startByte := offset + written;
      var page, pageOffset := startByte / PAGE_SIZE, startByte % PAGE_SIZE;
      lp := page;
      var room := PAGE_SIZE - pageOffset;
      toWrite := if |src| - written < room then |src| - written else room;
      InStore(pageCount, startByte, |src| - written);
      ok := WriteSegment(page, pageOffset, src[written..written + toWrite]);
      ValidHasShape();
    }

    // -------------------------------------------------------------- reading

    /** Every mapped page is marked valid, so that no read takes it for absent. */
    ghost predicate Readable()
      requires Shape()
      reads this
    {
      forall lp :: 0 <= lp < pageCount && l2pMap[lp] >= 0 ==> l2pMap[lp] < pageCount && physValid[l2pMap[lp]]
    }

    /** The flips in the page that lp is read from: none if it is read as zeros. */
    ghost function NoiseOn(lp: nat, noise: nat -> Word): nat -> Word
      requires Shape() && lp < pageCount
      reads this
    {
      L2pInRange(lp);
      if l2pMap[lp] < 0 || !physValid[l2pMap[lp]] then (c: nat) => Zeros(WORD_BITS) else PageNoise(l2pMap[lp], noise)
    }

    /** Logical page lp as a read sees it, in any state and under any flips. */
    ghost function SeenPage(lp: nat, noise: nat -> Word): (b: seq<Byte>)
      requires Shape() && lp < pageCount
      reads this, memoryBuffer
      ensures |b| == PAGE_SIZE
    {
      L2pInRange(lp);
      SeenBytes(VisiblePage(pageCount, Seen(), lp), NoiseOn(lp, noise))
    }

    /** The whole store as reads see it. */
    ghost function SeenFlat(noise: nat -> nat -> Word): (f: seq<Byte>)
      requires Shape()
      reads this, memoryBuffer
      ensures |f| == capacity
    {
      seq(capacity, i requires 0 <= i < capacity && Shape() reads this, memoryBuffer =>
        SeenPage(i / PAGE_SIZE, noise(i / PAGE_SIZE))[i % PAGE_SIZE])
    }

    /** No byte of the range lies in a chunk that the decoder reports. */
    ghost predicate NothingReported(from: nat, to: nat, noise: nat -> nat -> Word)
      requires Shape() && to <= capacity
      reads this
    {
      forall i :: from <= i < to ==> !Reported(NoiseOn(i / PAGE_SIZE, noise(i / PAGE_SIZE))(i % PAGE_SIZE / 8))
    }

    /** Flips that wear may put into a read: none unless a counter is over its threshold. */
    function PageNoise(phys: nat, noise: nat -> Word): nat -> Word
      requires Shape() && phys < pageCount
      reads this
    {
      if pageWrites[phys] > WEAR_THRESHOLD || pageDisturbs[phys] > DISTURB_THRESHOLD then noise
      else (c: nat) => Zeros(WORD_BITS)
    }

    /** Reads size bytes; noise says which bits wear would flip in each chunk of each logical page. */
    method Read(offset: nat, size: nat, noise: nat -> nat -> Word) returns (bytes: seq<Byte>, ok: bool)
      requires Valid()
      ensures offset + size > capacity ==> !ok && bytes == []
      ensures offset + size <= capacity ==>
                && bytes == SeenFlat(noise)[offset..offset + size]
                && (ok <==> NothingReported(offset, offset + size, noise))
      ensures offset + size <= capacity && (intact || Readable()) && ok
              && (Fresh() || forall lp: nat :: QuietEnough(noise(lp))) ==>
                bytes == Contents()[offset..offset + size]
      ensures offset + size <= capacity && (intact || Readable())
              && (Fresh() || forall lp: nat :: Silent(noise(lp))) ==>
                ok
    {
      hide Fresh;
      hide QuietEnough;
      hide Silent;
      hide Contents;
      hide Readable;
      hide Shape;
      hide Valid;
      hide SeenFlat;
      hide NothingReported;
      ReadBegins();
      if size > capacity || offset > capacity - size {
        return [], false;
      }
      if Readable() {
        SeenAsStored(offset, offset + size, noise);
      }
      bytes, ok := ReadSegments(offset, size, noise);
    }

    method ReadSegments(offset: nat, size: nat, noise: nat -> nat -> Word) returns (bytes: seq<Byte>, ok: bool)
      requires Valid() && offset + size <= capacity
      ensures bytes == SeenFlat(noise)[offset..offset + size]
      ensures ok <==> NothingReported(offset, offset + size, noise)
    {
      hide Shape;
      hide Valid;
      hide SeenFlat;
      hide NothingReported;
      ReadBegins();
      ghost var seen := SeenFlat(noise);
      var startByte, endByte := offset, offset + size;
      bytes, ok := [], true;
      NothingToReport(offset, noise);
      while startByte < endByte
        invariant offset <= startByte <= endByte && |bytes| == startByte - offset
        invariant bytes == seen[offset..startByte]
        invariant ok <==> NothingReported(offset, startByte, noise)
        decreases endByte - startByte
      {
        var lp, pageOffset := startByte / PAGE_SIZE, startByte % PAGE_SIZE;
        var room := PAGE_SIZE - pageOffset;
        var toCopy := if endByte - startByte < room then endByte - startByte else room;
        InStore(pageCount, startByte, endByte - startByte);
        var piece, good := ReadSegment(lp, pageOffset, toCopy, noise);
        assert lp * PAGE_SIZE + pageOffset == startByte;
        assert seen[offset..startByte] + seen[startByte..startByte + toCopy] == seen[offset..startByte + toCopy];
        ReportedNext(offset, startByte, startByte + toCopy, noise);
        bytes, ok := bytes + piece, ok && good;
        startByte := startByte + toCopy;
      }
    }

    lemma NothingToReport(at: nat, noise: nat -> nat -> Word)
      requires Shape() && at <= capacity
      ensures NothingReported(at, at, noise)
    {
    }

    lemma ReportedNext(from: nat, mid: nat, to: nat, noise: nat -> nat -> Word)
      requires Shape() && from <= mid <= to <= capacity
      ensures NothingReported(from, to, noise) <==> NothingReported(from, mid, noise) && NothingReported(mid, to, noise)
    {
      hide Reported;
      hide NoiseOn;
    }

    lemma ReadBegins()
      requires Valid()
      ensures Shape() && capacity == pageCount * PAGE_SIZE && (intact ==> Readable())
    {
    }

    /** One page's part of a read. */
    method ReadSegment(lp: nat, at: nat, len: nat, noise: nat -> nat -> Word) returns (piece: seq<Byte>, good: bool)
      requires Valid() && lp < pageCount && len > 0 && at + len <= PAGE_SIZE
      ensures |piece| == len && lp * PAGE_SIZE + at + len <= capacity
      ensures piece == SeenFlat(noise)[lp * PAGE_SIZE + at..lp * PAGE_SIZE + at + len]
      ensures good <==> NothingReported(lp * PAGE_SIZE + at, lp * PAGE_SIZE + at + len, noise)
    {
      hide CoherentAt;
      hide NoDup;
      hide ChecksMatch;
      hide Sum;
      hide SeenFlat;
      hide NothingReported;
      hide SeenBytes;
      hide Reported;
      hide Formed;
      assert (lp + 1) * PAGE_SIZE <= capacity;
      SeenSlice(lp, at, len, noise);
      var phys := l2pMap[lp];
      L2pInRange(lp);
      if phys < 0 || !physValid[phys] {
        piece, good := seq(len, _ => ZERO), true;
        SeenZeros(at, len);
      } else {
        assert (phys + 1) * PAGE_SIZE <= pageCount * PAGE_SIZE && (phys + 1) * CHUNKS <= pageCount * CHUNKS;
        piece, good := ReadPage(memoryBuffer, eccBuffer, pageCount, phys, at, len, PageNoise(phys, noise(lp)));
        assert ChecksMatch(PageOf(pageCount, memoryBuffer[..], phys), ChecksOf(pageCount, eccBuffer[..], phys));
      }
    }

    /** While mapped pages are marked valid, little noise not reported hides nothing, and none reports nothing. */
    lemma SeenAsStored(from: nat, to: nat, noise: nat -> nat -> Word)
      requires Shape() && Readable() && from <= to <= capacity
      ensures (Fresh() || forall lp: nat :: QuietEnough(noise(lp))) && NothingReported(from, to, noise) ==>
                SeenFlat(noise)[from..to] == Contents()[from..to]
      ensures (Fresh() || forall lp: nat :: Silent(noise(lp))) ==> NothingReported(from, to, noise)
    {
      hide Fresh;
      hide QuietEnough;
      hide Silent;
      hide Reported;
      hide NoiseOn;
      hide SeenPage;
      hide Readable;
      hide Formed;
      hide LogicalPage;
      var seen, contents := SeenFlat(noise), Contents();
      forall i | from <= i < to
        ensures (Fresh() || forall lp: nat :: Silent(noise(lp))) ==>
                  !Reported(NoiseOn(i / PAGE_SIZE, noise(i / PAGE_SIZE))(i % PAGE_SIZE / 8))
      {
        SeenByteAsStored(i / PAGE_SIZE, i % PAGE_SIZE, noise(i / PAGE_SIZE));
      }
      if (Fresh() || forall lp: nat :: QuietEnough(noise(lp))) && NothingReported(from, to, noise) {
        forall i | from <= i < to ensures seen[i] == contents[i] {
          SeenByteAsStored(i / PAGE_SIZE, i % PAGE_SIZE, noise(i / PAGE_SIZE));
        }
      }
    }

    /** A page in use that has been programmed more than 50000 times, or its neighbour more than 100000 times. */
    ghost predicate Worn(lp: nat)
      requires Shape() && lp < pageCount
      reads this
    {
      && 0 <= l2pMap[lp] < pageCount && physValid[l2pMap[lp]]
      && (pageWrites[l2pMap[lp]] > 50_000 || pageDisturbs[l2pMap[lp]] > 100_000)
    }

    /** In a worn page a chunk with two flips is never seen as it is, and is reported exactly when the XOR of their
        positions has an even number of ones. */
    lemma TwoFlipsSeen(lp: nat, c: nat, noise: nat -> Word)
      requires Shape() && lp < pageCount && c < CHUNKS && Worn(lp) && Weight(noise(c)) == 2
      ensures SeenPage(lp, noise)[8 * c..8 * c + 8]
           != PageOf(pageCount, memoryBuffer[..], l2pMap[lp])[8 * c..8 * c + 8]
      ensures Reported(NoiseOn(lp, noise)(c)) <==> EvenOnes(PositionSum(noise(c)))
    {
      hide SeenBytes;
      hide Reported;
      hide Formed;
      hide Sum;
      hide PageOf;
      ResidueOfFew(noise(c));
      SeenChunkWrong(VisiblePage(pageCount, Seen(), lp), NoiseOn(lp, noise), c);
    }

    /** A page that is not worn is seen as it is, whatever the noise, and reports nothing. */
    lemma UnwornSeen(lp: nat, noise: nat -> Word)
      requires Shape() && lp < pageCount && !Worn(lp)
      ensures -1 <= l2pMap[lp] < pageCount
      ensures SeenPage(lp, noise) == VisiblePage(pageCount, Seen(), lp)
      ensures forall c: nat :: !Reported(NoiseOn(lp, noise)(c))
    {
      hide SeenBytes;
      hide Reported;
      hide Formed;
      hide Sum;
      hide PageOf;
      L2pInRange(lp);
      WeightZero(Zeros(WORD_BITS));
      ResidueOfFew(Zeros(WORD_BITS));
      var page, seen := VisiblePage(pageCount, Seen(), lp), SeenPage(lp, noise);
      forall o | 0 <= o < PAGE_SIZE ensures seen[o] == page[o] {
        SeenByteRight(page, NoiseOn(lp, noise), o);
      }
    }

    lemma SeenByteAsStored(lp: nat, o: nat, noise: nat -> Word)
      requires Shape() && Readable() && lp < pageCount && o < PAGE_SIZE
      ensures (Fresh() || QuietEnough(noise)) && !Reported(NoiseOn(lp, noise)(o / 8)) ==>
                SeenPage(lp, noise)[o] == Logical(lp)[o]
      ensures Fresh() || Silent(noise) ==> !Reported(NoiseOn(lp, noise)(o / 8))
    {
      hide Reported;
      hide SeenBytes;
      hide Formed;
      hide Sum;
      L2pInRange(lp);
      WeightZero(Zeros(WORD_BITS));
      ResidueOfFew(Zeros(WORD_BITS));
      var on := NoiseOn(lp, noise);
      if l2pMap[lp] >= 0 {
        if Fresh() {
          FreshIsSilent(l2pMap[lp], noise);
        }
        QuietNoise(l2pMap[lp], noise);
      }
      if (Fresh() || QuietEnough(noise)) && !Reported(on(o / 8)) {
        assert Weight(on(o / 8)) <= 1;
        SeenByteRight(Logical(lp), on, o);
      }
    }

    /** A range within one page, seen and reported as that page's part. */
    lemma SeenSlice(lp: nat, at: nat, len: nat, noise: nat -> nat -> Word)
      requires Shape() && lp < pageCount && at + len <= PAGE_SIZE
      ensures lp * PAGE_SIZE + at + len <= capacity
      ensures SeenFlat(noise)[lp * PAGE_SIZE + at..lp * PAGE_SIZE + at + len]
           == SeenPage(lp, noise(lp))[at..at + len]
      ensures NothingReported(lp * PAGE_SIZE + at, lp * PAGE_SIZE + at + len, noise) <==>
                forall o :: at <= o < at + len ==> !Reported(NoiseOn(lp, noise(lp))(o / 8))
    {
      hide Reported;
      hide NoiseOn;
      hide SeenPage;
      assert (lp + 1) * PAGE_SIZE <= capacity;
      var start, seen, page := lp * PAGE_SIZE + at, SeenFlat(noise), SeenPage(lp, noise(lp));
      var x, y := seen[start..start + len], page[at..at + len];
      forall i | 0 <= i < len ensures x[i] == y[i] {
        assert (start + i) / PAGE_SIZE == lp && (start + i) % PAGE_SIZE == at + i;
        assert x[i] == seen[start + i];
      }
      ReportedSlice(lp, at, len, noise);
    }

    lemma ReportedSlice(lp: nat, at: nat, len: nat, noise: nat -> nat -> Word)
      requires Shape() && lp < pageCount && at + len <= PAGE_SIZE && lp * PAGE_SIZE + at + len <= capacity
      ensures NothingReported(lp * PAGE_SIZE + at, lp * PAGE_SIZE + at + len, noise) <==>
                forall o :: at <= o < at + len ==> !Reported(NoiseOn(lp, noise(lp))(o / 8))
    {
      hide Reported;
      hide NoiseOn;
      var start := lp * PAGE_SIZE;
      if NothingReported(start + at, start + at + len, noise) {
        forall o | at <= o < at + len ensures !Reported(NoiseOn(lp, noise(lp))(o / 8)) {
          var i := start + o;
          assert i / PAGE_SIZE == lp && i % PAGE_SIZE == o;
        }
      }
    }

    /** Nothing is wrong with zeros that were never stored. */
    lemma SeenZeros(at: nat, len: nat)
      requires at + len <= PAGE_SIZE
      ensures SeenBytes(ZeroPage(), (c: nat) => Zeros(WORD_BITS))[at..at + len] == seq(len, _ => ZERO)
      ensures !Reported(Zeros(WORD_BITS))
    {
      hide Reported;
      hide SeenBytes;
      var silent := (c: nat) => Zeros(WORD_BITS);
      WeightZero(Zeros(WORD_BITS));
      ResidueOfFew(Zeros(WORD_BITS));
      assert Silent(silent) && QuietEnough(silent);
      SeenQuietly(ZeroPage(), silent, at, len);
    }

    lemma FreshIsSilent(phys: nat, noise: nat -> Word)
      requires Shape() && phys < pageCount && Fresh()
      ensures Silent(PageNoise(phys, noise)) && QuietEnough(PageNoise(phys, noise))
    {
      UnwornDisturbs(pageCount, freeHot, freeCold, pageWrites, pageDisturbs, phys);
      WeightZero(Zeros(WORD_BITS));
    }

    lemma QuietNoise(phys: nat, noise: nat -> Word)
      requires Shape() && phys < pageCount
      ensures QuietEnough(noise) ==> QuietEnough(PageNoise(phys, noise))
      ensures Silent(noise) ==> Silent(PageNoise(phys, noise)) && QuietEnough(PageNoise(phys, noise))
    {
      WeightZero(Zeros(WORD_BITS));
    }
  }
}
