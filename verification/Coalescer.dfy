/** The write-coalescing staging buffer in front of the storage engine. */
module Coalescer {
  import opened PageStore
  import opened Splices
  import opened FtlMaps
  import opened FtlLedger
  import opened Ftl
  import FtlRuns

  datatype CoalescePage = CoalescePage(data: seq<Byte>, bytesCommitted: nat, dirty: bool, baseLba: nat)

  const CLEAN: CoalescePage := CoalescePage(ZeroPage(), 0, false, 0)

  /** An accepted write, cut off at the end of its page. */
  datatype Push = Push(lba: nat, bytes: seq<Byte>)

  function PageStart(lba: nat): nat {
    lba / PAGE_SIZE * PAGE_SIZE
  }

  /** The staging slot that a page address falls into. */
  function SlotOf(depth: nat, lba: nat): (i: nat)
    requires depth > 0
    ensures i < depth
  {
    lba / PAGE_SIZE % depth
  }

  /** Two addresses share a slot exactly if the depth divides the difference of their page numbers. */
  lemma SlotsShared(depth: nat, a: nat, b: nat)
    requires depth > 0
    ensures SlotOf(depth, a) == SlotOf(depth, b) <==> (a / PAGE_SIZE - b / PAGE_SIZE) % depth == 0
  {
    SameRemainder(a / PAGE_SIZE, b / PAGE_SIZE, depth);
  }

  lemma SameRemainder(x: nat, y: nat, n: nat)
    requires n > 0
    ensures x % n == y % n <==> (x - y) % n == 0
  {
    var k, rest: int := x / n - y / n, x % n - y % n;
    assert x - y == k * n + rest;
    var d, m: int := (x - y) / n, (x - y) % n;
    assert x - y == d * n + m;
    assert m - rest == (k - d) * n;
    Multiples(k - d, n);
  }

  lemma Multiples(k: int, n: int)
    requires n > 0
    ensures k >= 1 ==> k * n >= n
    ensures k <= -1 ==> k * n <= -n
  {
    if k >= 1 {
      assert k * n == n + (k - 1) * n;
    } else if k <= -1 {
      assert k * n == -n + (k + 1) * n;
    }
  }

  predicate Fits(p: Push) {
    p.bytes != [] && p.lba % PAGE_SIZE + |p.bytes| <= PAGE_SIZE
  }

  /** The part of a write up to the end of its page: all that is kept of it. */
  function Clamped(lba: nat, src: seq<Byte>): Push {
    var room := PAGE_SIZE - lba % PAGE_SIZE;
    Push(lba, if |src| < room then src else src[..room])
  }

  function Accepted(accepted: seq<seq<Push>>, depth: nat, p: Push): seq<seq<Push>>
    requires |accepted| == depth > 0
  {
    var slot := SlotOf(depth, p.lba);
    accepted[slot := accepted[slot] + [p]]
  }

  /** Zeros overlaid with the accepted bytes, in push order, each at its offset within a page. */
  function Overlay(pushes: seq<Push>): (page: seq<Byte>)
    requires forall k :: 0 <= k < |pushes| ==> Fits(pushes[k])
    ensures |page| == PAGE_SIZE
  {
    if pushes == [] then ZeroPage()
    else
      var last := pushes[|pushes| - 1];
      assert Fits(last);
      Splice(Overlay(pushes[..|pushes| - 1]), last.lba % PAGE_SIZE, last.bytes)
  }

  predicate Reaches(p: Push, o: nat) {
    p.lba % PAGE_SIZE <= o < p.lba % PAGE_SIZE + |p.bytes|
  }

  /** Each byte of the overlay is that of the latest push over it, or zero. */
  lemma {:induction false} OverlayLatest(pushes: seq<Push>, o: nat, k: nat)
    requires forall j :: 0 <= j < |pushes| ==> Fits(pushes[j])
    requires o < PAGE_SIZE && k <= |pushes| && forall j :: k <= j < |pushes| ==> !Reaches(pushes[j], o)
    requires k > 0 ==> Reaches(pushes[k - 1], o)
    ensures Overlay(pushes)[o] == if k == 0 then ZERO else pushes[k - 1].bytes[o - pushes[k - 1].lba % PAGE_SIZE]
  {
    if pushes != [] && k < |pushes| {
      OverlayLatest(pushes[..|pushes| - 1], o, k);
    }
  }

  function TotalBytes(pushes: seq<Push>): nat {
    if pushes == [] then 0 else TotalBytes(pushes[..|pushes| - 1]) + |pushes[|pushes| - 1].bytes|
  }

  /** What slot i holds after the given pushes since it was last cleaned. */
  ghost predicate Holds(depth: nat, i: nat, page: CoalescePage, pushes: seq<Push>)
    requires depth > 0
  {
    && (forall k :: 0 <= k < |pushes| ==> Fits(pushes[k]) && SlotOf(depth, pushes[k].lba) == i)
    && page.data == Overlay(pushes)
    && (page.dirty <==> pushes != [])
    && page.baseLba == (if pushes == [] then 0 else PageStart(pushes[0].lba))
    && page.bytesCommitted == (if TotalBytes(pushes) < PAGE_SIZE then TotalBytes(pushes) else PAGE_SIZE)
  }

  lemma AllClean(depth: nat, staging: seq<CoalescePage>, accepted: seq<seq<Push>>)
    requires depth > 0 && |staging| == |accepted| == depth
    requires forall i :: 0 <= i < depth ==> staging[i] == CLEAN && accepted[i] == []
    ensures AllHold(depth, staging, accepted)
  {
  }

  lemma HoldsNext(depth: nat, i: nat, page: CoalescePage, pushes: seq<Push>, p: Push, next: CoalescePage)
    requires depth > 0 && Holds(depth, i, page, pushes) && Fits(p) && SlotOf(depth, p.lba) == i
    requires next.dirty && next.data == Splice(page.data, p.lba % PAGE_SIZE, p.bytes)
    requires next.baseLba == if page.dirty then page.baseLba else PageStart(p.lba)
    requires next.bytesCommitted
             == if page.bytesCommitted + |p.bytes| > PAGE_SIZE then PAGE_SIZE else page.bytesCommitted + |p.bytes|
    ensures Holds(depth, i, next, pushes + [p])
  {
  }

  function CountDirty(staging: seq<CoalescePage>): nat {
    if staging == [] then 0
    else CountDirty(staging[..|staging| - 1]) + if staging[|staging| - 1].dirty then 1 else 0
  }

  lemma {:induction false} CountDirtyUpdate(staging: seq<CoalescePage>, i: nat, page: CoalescePage)
    requires i < |staging|
    ensures CountDirty(staging[i := page])
              == CountDirty(staging) + (if page.dirty then 1 else 0) - (if staging[i].dirty then 1 else 0)
  {
    var n := |staging| - 1;
    if i == n {
      assert staging[i := page][..n] == staging[..n];
    } else {
      CountDirtyUpdate(staging[..n], i, page);
      assert staging[i := page][..n] == staging[..n][i := page];
    }
  }

  lemma {:induction false} CountDirtyNone(staging: seq<CoalescePage>)
    ensures CountDirty(staging) == 0 <==> forall i :: 0 <= i < |staging| ==> !staging[i].dirty
  {
    if staging != [] {
      CountDirtyNone(staging[..|staging| - 1]);
    }
  }

  /** The flat array once the dirty ones of the first k slots have been written, in slot order. */
  function Flushed(f: seq<Byte>, staging: seq<CoalescePage>, k: nat): (g: seq<Byte>)
    requires k <= |staging|
    ensures |g| == |f|
  {
    if k == 0 then f else FlushStep(Flushed(f, staging, k - 1), staging[k - 1])
  }

  function FlushStep(g: seq<Byte>, page: CoalescePage): (h: seq<Byte>)
    ensures |h| == |g|
  {
    if page.dirty && page.baseLba + |page.data| <= |g| then Splice(g, page.baseLba, page.data) else g
  }

  lemma FlushStepAt(g: seq<Byte>, page: CoalescePage, base: nat)
    requires |page.data| == PAGE_SIZE && base + PAGE_SIZE <= |g|
    requires page.dirty ==> page.baseLba % PAGE_SIZE == 0
    requires base % PAGE_SIZE == 0
    ensures FlushStep(g, page)[base..base + PAGE_SIZE]
              == if page.dirty && page.baseLba == base then page.data else g[base..base + PAGE_SIZE]
  {
  }

  /** The request that flushing a slot makes. */
  function SlotWrite(page: CoalescePage): FtlRuns.Op {
    FtlRuns.WriteOp(page.baseLba, page.data)
  }

  /** The store once a slot has been flushed: a write that is refused leaves the bytes as they were. */
  function StoreStep(st: FtlRuns.Store, page: CoalescePage): (t: FtlRuns.Store)
    requires FtlRuns.Fits(st)
    ensures FtlRuns.Fits(t) && |t.flat| == |st.flat|
  {
    if page.dirty then FtlRuns.StoreAfter(st, SlotWrite(page)) else st
  }

  function FlushedStore(st: FtlRuns.Store, staging: seq<CoalescePage>, k: nat): (t: FtlRuns.Store)
    requires FtlRuns.Fits(st) && k <= |staging|
    ensures FtlRuns.Fits(t) && |t.flat| == |st.flat|
  {
    if k == 0 then st else StoreStep(FlushedStore(st, staging, k - 1), staging[k - 1])
  }

  predicate Programs(st: FtlRuns.Store, page: CoalescePage)
    requires FtlRuns.Fits(st)
  {
    page.dirty && FtlRuns.StoreReply(st, SlotWrite(page)) == FtlRuns.Wrote(true)
  }

  /** How many of the first k slots are written. */
  function Programmed(st: FtlRuns.Store, staging: seq<CoalescePage>, k: nat): (c: nat)
    requires FtlRuns.Fits(st) && k <= |staging|
    ensures c <= k
  {
    if k == 0 then 0
    else Programmed(st, staging, k - 1) + if Programs(FlushedStore(st, staging, k - 1), staging[k - 1]) then 1 else 0
  }

  ghost predicate CleanFlush(st: FtlRuns.Store, staging: seq<CoalescePage>, k: nat)
    requires FtlRuns.Fits(st) && k <= |staging|
  {
    k > 0 ==>
      && CleanFlush(st, staging, k - 1)
      && CleanSlotWrite(FlushedStore(st, staging, k - 1), staging[k - 1])
  }

  ghost predicate SafeFlush(st: FtlRuns.Store, staging: seq<CoalescePage>, k: nat)
    requires FtlRuns.Fits(st) && k <= |staging|
  {
    k > 0 ==> SafeFlush(st, staging, k - 1) && SafeSlotWrite(FlushedStore(st, staging, k - 1), staging[k - 1])
  }

  /** A whole page is written or nothing is. */
  lemma PageOrNothing(led: Ledger, base: nat)
    requires Formed(led) && base % PAGE_SIZE == 0 && base + PAGE_SIZE <= |led.l2p| * PAGE_SIZE
    ensures var w := Written(led, base, PAGE_SIZE); w.1 == if w.0 then PAGE_SIZE else 0
  {
    hide Formed;
    hide SegmentWritten;
    assert FirstPart(base, PAGE_SIZE) == PAGE_SIZE;
  }

  lemma StoreStepIs(st: FtlRuns.Store, page: CoalescePage)
    requires FtlRuns.Fits(st) && |page.data| == PAGE_SIZE && (page.dirty ==> page.baseLba % PAGE_SIZE == 0)
    ensures StoreStep(st, page).flat == if Programs(st, page) then FlushStep(st.flat, page) else st.flat
    ensures Programs(st, page) ==> page.baseLba + PAGE_SIZE <= |st.flat|
  {
    hide Written;
    hide Formed;
    if page.dirty && FtlRuns.InRange(st, SlotWrite(page)) {
      PageOrNothing(st.led, page.baseLba);
      assert page.data[..PAGE_SIZE] == page.data;
      SpliceNothing(st.flat, page.baseLba, page.data);
    }
  }

  /** Which slots are written does not depend on the bytes stored. */
  lemma SameStep(a: FtlRuns.Store, b: FtlRuns.Store, page: CoalescePage)
    requires FtlRuns.Fits(a) && FtlRuns.Fits(b) && a.led == b.led && |a.flat| == |b.flat|
    ensures StoreStep(a, page).led == StoreStep(b, page).led
    ensures Programs(a, page) <==> Programs(b, page)
    ensures CleanSlotWrite(a, page) <==> CleanSlotWrite(b, page)
    ensures SafeSlotWrite(a, page) <==> SafeSlotWrite(b, page)
  {
    hide FtlRuns.Fits;
    FtlRuns.SameLedger(a, b, SlotWrite(page));
  }

  ghost predicate CleanSlotWrite(st: FtlRuns.Store, page: CoalescePage)
    requires FtlRuns.Fits(st)
  {
    page.dirty ==> FtlRuns.CleanOp(st, SlotWrite(page))
  }

  ghost predicate SafeSlotWrite(st: FtlRuns.Store, page: CoalescePage)
    requires FtlRuns.Fits(st)
  {
    page.dirty ==> FtlRuns.SafeOp(st, SlotWrite(page))
  }

  /** When every dirty slot is written, the flat array is the flushed one. */
  lemma {:induction false} AllProgrammed(st: FtlRuns.Store, staging: seq<CoalescePage>, k: nat)
    requires FtlRuns.Fits(st) && k <= |staging| && OwnPages(staging)
    ensures Programmed(st, staging, k) <= CountDirty(staging[..k])
    ensures Programmed(st, staging, k) == CountDirty(staging[..k]) ==>
              FlushedStore(st, staging, k).flat == Flushed(st.flat, staging, k)
  {
    hide FtlRuns.Fits;
    hide StoreStep;
    hide FlushStep;
    if k > 0 {
      AllProgrammed(st, staging, k - 1);
      assert staging[..k][..k - 1] == staging[..k - 1];
      StoreStepIs(FlushedStore(st, staging, k - 1), staging[k - 1]);
      if !staging[k - 1].dirty {
        NoSlotWrite(FlushedStore(st, staging, k - 1), staging[k - 1]);
      }
    }
  }

  lemma NoSlotWrite(st: FtlRuns.Store, page: CoalescePage)
    requires FtlRuns.Fits(st) && !page.dirty
    ensures StoreStep(st, page) == st && !Programs(st, page)
    ensures CleanSlotWrite(st, page) && SafeSlotWrite(st, page)
    ensures FlushStep(st.flat, page) == st.flat
  {
  }

  ghost predicate AllHold(depth: nat, staging: seq<CoalescePage>, accepted: seq<seq<Push>>)
    requires depth > 0
  {
    && |staging| == |accepted| == depth
    && forall i :: 0 <= i < depth ==> Holds(depth, i, staging[i], accepted[i])
  }

  /** Slots have page addresses of their own, so one flush never overwrites another's page. */
  lemma BaseOfSlot(depth: nat, i: nat, page: CoalescePage, pushes: seq<Push>)
    requires depth > 0 && Holds(depth, i, page, pushes)
    ensures |page.data| == PAGE_SIZE
    ensures page.dirty ==> page.baseLba % PAGE_SIZE == 0 && SlotOf(depth, page.baseLba) == i
  {
    if page.dirty {
      assert SlotOf(depth, pushes[0].lba) == i;
    }
  }

  /** Every slot stages a whole page at a page address, and dirty slots have addresses of their own. */
  ghost predicate OwnPages(staging: seq<CoalescePage>) {
    && (forall x :: 0 <= x < |staging| ==> |staging[x].data| == PAGE_SIZE)
    && (forall x :: 0 <= x < |staging| && staging[x].dirty ==> staging[x].baseLba % PAGE_SIZE == 0)
    && (forall x, y :: 0 <= x < y < |staging| && staging[x].dirty && staging[y].dirty ==>
          staging[x].baseLba != staging[y].baseLba)
  }

  lemma SlotsOwnPages(depth: nat, staging: seq<CoalescePage>, accepted: seq<seq<Push>>)
    requires depth > 0 && AllHold(depth, staging, accepted)
    ensures OwnPages(staging)
  {
    forall x | 0 <= x < depth
      ensures |staging[x].data| == PAGE_SIZE
      ensures staging[x].dirty ==> staging[x].baseLba % PAGE_SIZE == 0 && SlotOf(depth, staging[x].baseLba) == x
    {
      assert Holds(depth, x, staging[x], accepted[x]);
      BaseOfSlot(depth, x, staging[x], accepted[x]);
    }
    hide SlotOf;
  }

  lemma {:induction false} FlushedAt(f: seq<Byte>, staging: seq<CoalescePage>, k: nat, i: nat)
    requires OwnPages(staging) && i < k <= |staging| && staging[i].dirty && staging[i].baseLba + PAGE_SIZE <= |f|
    ensures Flushed(f, staging, k)[staging[i].baseLba..staging[i].baseLba + PAGE_SIZE] == staging[i].data
  {
    FlushStepAt(Flushed(f, staging, k - 1), staging[k - 1], staging[i].baseLba);
    hide FlushStep;
    if i < k - 1 {
      FlushedAt(f, staging, k - 1, i);
    }
  }

  /** After a flush, each dirty slot's page reads back as zeros overlaid with what the slot accepted. */
  lemma FlushedReads(f: seq<Byte>, depth: nat, staging: seq<CoalescePage>, accepted: seq<seq<Push>>, k: nat, i: nat)
    requires depth > 0 && AllHold(depth, staging, accepted)
    requires i < k <= depth && staging[i].dirty && staging[i].baseLba + PAGE_SIZE <= |f|
    ensures Flushed(f, staging, k)[staging[i].baseLba..staging[i].baseLba + PAGE_SIZE] == Overlay(accepted[i])
  {
    SlotsOwnPages(depth, staging, accepted);
    hide OwnPages;
    FlushedAt(f, staging, k, i);
    assert Holds(depth, i, staging[i], accepted[i]);
  }

  /** When no slot was given two different pages, every page pushed to reads back as its own bytes. */
  lemma FlushDeliversEveryPage(f: seq<Byte>, depth: nat, staging: seq<CoalescePage>, accepted: seq<seq<Push>>,
    i: nat, j: nat)
    requires depth > 0 && AllHold(depth, staging, accepted)
    requires forall x, k :: 0 <= x < depth && 0 <= k < |accepted[x]| ==>
               PageStart(accepted[x][k].lba) == PageStart(accepted[x][0].lba)
    requires i < depth && j < |accepted[i]| && PageStart(accepted[i][j].lba) + PAGE_SIZE <= |f|
    ensures var base := PageStart(accepted[i][j].lba);
            Flushed(f, staging, depth)[base..base + PAGE_SIZE] == Overlay(accepted[i])
  {
    assert PageStart(accepted[i][j].lba) == PageStart(accepted[i][0].lba);
    FlushedReads(f, depth, staging, accepted, depth, i);
  }

  lemma {:induction false} FlushedElsewhere(f: seq<Byte>, staging: seq<CoalescePage>, k: nat, base: nat)
    requires OwnPages(staging) && k <= |staging| && base % PAGE_SIZE == 0 && base + PAGE_SIZE <= |f|
    requires forall x :: 0 <= x < |staging| && staging[x].dirty ==> staging[x].baseLba != base
    ensures Flushed(f, staging, k)[base..base + PAGE_SIZE] == f[base..base + PAGE_SIZE]
  {
    if k > 0 {
      FlushedElsewhere(f, staging, k - 1, base);
      FlushStepAt(Flushed(f, staging, k - 1), staging[k - 1], base);
      hide FlushStep;
    }
  }

  /** What any page holds after a full flush: its slot's bytes if it was the first page pushed to that slot
      since the last flush, and otherwise what it held before, even if writes to it were accepted. */
  lemma FlushExactly(f: seq<Byte>, depth: nat, staging: seq<CoalescePage>, accepted: seq<seq<Push>>, base: nat)
    requires depth > 0 && AllHold(depth, staging, accepted)
    requires base % PAGE_SIZE == 0 && base + PAGE_SIZE <= |f|
    ensures var i := SlotOf(depth, base);
            Flushed(f, staging, depth)[base..base + PAGE_SIZE]
              == if accepted[i] != [] && PageStart(accepted[i][0].lba) == base then Overlay(accepted[i])
                 else f[base..base + PAGE_SIZE]
  {
    var i := SlotOf(depth, base);
    assert Holds(depth, i, staging[i], accepted[i]);
    if accepted[i] != [] && PageStart(accepted[i][0].lba) == base {
      FlushedReads(f, depth, staging, accepted, depth, i);
    } else {
      SlotsOwnPages(depth, staging, accepted);
      forall x | 0 <= x < depth && staging[x].dirty ensures staging[x].baseLba != base {
        assert Holds(depth, x, staging[x], accepted[x]);
        BaseOfSlot(depth, x, staging[x], accepted[x]);
      }
      FlushedElsewhere(f, staging, depth, base);
    }
  }

  lemma {:induction false} StoreFlushedAt(st: FtlRuns.Store, staging: seq<CoalescePage>, k: nat, base: nat, i: nat)
    requires FtlRuns.Fits(st) && OwnPages(staging) && k <= |staging| && i < |staging|
    requires base % PAGE_SIZE == 0 && base + PAGE_SIZE <= |st.flat|
    requires forall x :: 0 <= x < |staging| && staging[x].dirty && staging[x].baseLba == base ==> x == i
    ensures FlushedStore(st, staging, k).flat[base..base + PAGE_SIZE]
              == if i < k && staging[i].baseLba == base && Programs(FlushedStore(st, staging, i), staging[i])
                 then staging[i].data else st.flat[base..base + PAGE_SIZE]
  {
    hide FtlRuns.Fits;
    hide StoreStep;
    hide FtlRuns.StoreReply;
    if k > 0 {
      var before := FlushedStore(st, staging, k - 1);
      StoreFlushedAt(st, staging, k - 1, base, i);
      StoreStepIs(before, staging[k - 1]);
      FlushStepAt(before.flat, staging[k - 1], base);
      hide FlushStep;
    }
  }

  /** The same for any flush, writes refused or not: a page holds its slot's bytes if it was the first page pushed
      to that slot since the last flush and the slot's write was accepted, and otherwise what it held before. */
  lemma FlushExactlyAccepted(st: FtlRuns.Store, depth: nat, staging: seq<CoalescePage>, accepted: seq<seq<Push>>,
    base: nat)
    requires FtlRuns.Fits(st) && depth > 0 && AllHold(depth, staging, accepted)
    requires base % PAGE_SIZE == 0 && base + PAGE_SIZE <= |st.flat|
    ensures var i := SlotOf(depth, base);
            FlushedStore(st, staging, depth).flat[base..base + PAGE_SIZE]
              == if accepted[i] != [] && PageStart(accepted[i][0].lba) == base
                    && Programs(FlushedStore(st, staging, i), staging[i])
                 then Overlay(accepted[i]) else st.flat[base..base + PAGE_SIZE]
  {
    hide FtlRuns.Fits;
    hide FtlRuns.StoreReply;
    var i := SlotOf(depth, base);
    SlotsOwnPages(depth, staging, accepted);
    forall x | 0 <= x < depth && staging[x].dirty && staging[x].baseLba == base ensures x == i {
      assert Holds(depth, x, staging[x], accepted[x]);
      BaseOfSlot(depth, x, staging[x], accepted[x]);
    }
    assert Holds(depth, i, staging[i], accepted[i]);
    hide OwnPages;
    hide Holds;
    StoreFlushedAt(st, staging, depth, base, i);
  }

  lemma NextSlot(staging: seq<CoalescePage>, k: nat, f: seq<Byte>, capacity: nat)
    requires k <= |staging|
    ensures CountDirty(staging[..0]) == 0 && Flushed(f, staging, 0) == f && CleanUpTo(staging, 0) == staging
    ensures k < |staging| ==>
              && CountDirty(staging[..k + 1]) == CountDirty(staging[..k]) + (if staging[k].dirty then 1 else 0)
              && (BasesWithin(staging, capacity) && staging[k].dirty ==> staging[k].baseLba + PAGE_SIZE <= capacity)
              && CleanUpTo(staging, k)[k := CLEAN] == CleanUpTo(staging, k + 1)
              && Flushed(f, staging, k + 1) == FlushStep(Flushed(f, staging, k), staging[k])
              && (!staging[k].dirty ==> Flushed(f, staging, k + 1) == Flushed(f, staging, k))
  {
    if k < |staging| {
      assert staging[..k + 1][..k] == staging[..k];
    }
  }

  lemma NextStore(st: FtlRuns.Store, staging: seq<CoalescePage>, k: nat)
    requires FtlRuns.Fits(st) && k <= |staging|
    ensures FlushedStore(st, staging, 0) == st && Programmed(st, staging, 0) == 0
    ensures CleanFlush(st, staging, 0) && SafeFlush(st, staging, 0)
    ensures k < |staging| ==>
              var now := FlushedStore(st, staging, k);
              && FlushedStore(st, staging, k + 1) == StoreStep(now, staging[k])
              && Programmed(st, staging, k + 1)
                 == Programmed(st, staging, k) + (if Programs(now, staging[k]) then 1 else 0)
              && (CleanFlush(st, staging, k + 1) <==> CleanFlush(st, staging, k) && CleanSlotWrite(now, staging[k]))
              && (SafeFlush(st, staging, k + 1) <==> SafeFlush(st, staging, k) && SafeSlotWrite(now, staging[k]))
  {
    hide StoreStep;
    hide Programs;
    hide CleanSlotWrite;
    hide SafeSlotWrite;
  }

  /** The buffer with its first k slots cleaned. */
  function CleanUpTo(staging: seq<CoalescePage>, k: nat): seq<CoalescePage>
    requires k <= |staging|
  {
    seq(k, _ => CLEAN) + staging[k..]
  }

  lemma StillThere(before: seq<CoalescePage>, now: seq<CoalescePage>, k: nat)
    requires k < |before| && now == CleanUpTo(before, k)
    ensures |now| == |before| && now[k] == before[k]
  {
  }

  ghost predicate BasesWithin(staging: seq<CoalescePage>, capacity: nat) {
    forall i :: 0 <= i < |staging| && staging[i].dirty ==> staging[i].baseLba + PAGE_SIZE <= capacity
  }

  lemma OneSegment(base: nat)
    requires base % PAGE_SIZE == 0
    ensures Segments(base, PAGE_SIZE) == 1
  {
  }

  class BurstCoalescer {
    const depth: nat
    const staging: array<CoalescePage>
    var hostBytes: nat
    var flashBytes: nat
    var gcCalls: nat
    var blocksErased: nat
    var pagesProg: nat
    var queueDepth: nat
    /** For each slot, what it has accepted since it was last cleaned. */
    ghost var accepted: seq<seq<Push>>

    ghost predicate Valid()
      reads this, staging
    {
      && depth > 0
      && staging.Length == depth
      && AllHold(depth, staging[..], accepted)
      && queueDepth == CountDirty(staging[..])
    }

    constructor (depth_: nat)
      requires depth_ > 0
      ensures Valid() && fresh(staging) && depth == depth_
      ensures accepted == seq(depth, _ => []) && queueDepth == 0
    {
      depth := depth_;
      staging := new CoalescePage[depth_](_ => CLEAN);
      hostBytes, flashBytes, gcCalls, blocksErased, pagesProg, queueDepth := 0, 0, 0, 0, 0, 0;
      accepted := seq(depth_, _ => []);
      new;
      CountDirtyNone(staging[..]);
    }

    /** Stages a write, cut off at the end of its page. */
    method PushWrite(lba: nat, src: seq<Byte>) returns (ok: bool)
      requires Valid()
      modifies this`hostBytes, this`queueDepth, this`accepted, staging
      ensures Valid()
      ensures ok <==> 0 < |src| <= PAGE_SIZE
      ensures !ok ==> unchanged(this, staging)
      ensures ok ==> accepted == Accepted(old(accepted), depth, Clamped(lba, src))
      ensures ok ==>
                && Clamped(lba, src).lba == lba && Clamped(lba, src).bytes <= src
                && |Clamped(lba, src).bytes|
                   == (if lba % PAGE_SIZE + |src| <= PAGE_SIZE then |src| else PAGE_SIZE - lba % PAGE_SIZE)
      ensures ok ==> hostBytes == old(hostBytes) + |Clamped(lba, src).bytes|
    {
      if |src| == 0 || |src| > PAGE_SIZE {
        return false;
      }
      var pageIdx, pageOff := SlotOf(depth, lba), lba % PAGE_SIZE;
      var toCopy := if |src| < PAGE_SIZE - pageOff then |src| else PAGE_SIZE - pageOff;
      assert Clamped(lba, src) == Push(lba, src[..toCopy]) && Fits(Clamped(lba, src));
      hide Clamped;
      hide Fits;
      hide AllHold;
      hide CountDirty;
      hide SlotOf;
      Merge(pageIdx, lba, src[..toCopy]);
      hostBytes := hostBytes + toCopy;
      ok := true;
    }

    /** Copies bytes into a slot, which takes the address of the first page put there. */
    method Merge(pageIdx: nat, lba: nat, bytes: seq<Byte>)
      requires Valid() && pageIdx == SlotOf(depth, lba) && Fits(Push(lba, bytes))
      modifies staging, this`queueDepth, this`accepted
      ensures Valid()
      ensures accepted == Accepted(old(accepted), depth, Push(lba, bytes))
    {
      hide SlotOf;
      hide Holds;
      hide Splice;
      hide CountDirty;
      hide Overlay;
      hide TotalBytes;
      ghost var before := staging[..];
      var pg := staging[pageIdx];
      assert Holds(depth, pageIdx, pg, accepted[pageIdx]);
      BaseOfSlot(depth, pageIdx, pg, accepted[pageIdx]);
      if !pg.dirty {
        pg := pg.(baseLba := PageStart(lba), dirty := true);
        queueDepth := queueDepth + 1;
      }
      pg := pg.(data := Splice(pg.data, lba % PAGE_SIZE, bytes), bytesCommitted := pg.bytesCommitted + |bytes|);
      if pg.bytesCommitted > PAGE_SIZE {
        pg := pg.(bytesCommitted := PAGE_SIZE);
      }
      HoldsNext(depth, pageIdx, before[pageIdx], accepted[pageIdx], Push(lba, bytes), pg);
      staging[pageIdx] := pg;
      accepted := accepted[pageIdx := accepted[pageIdx] + [Push(lba, bytes)]];
      assert staging[..] == before[pageIdx := pg];
      CountDirtyUpdate(before, pageIdx, pg);
    }

    /** Writes one dirty slot as a whole page, and cleans the slot whether or not the write succeeded. */
    method FlushSlot(ftl: FTJController, i: nat) returns (ok: bool)
      requires Valid() && ftl.Valid() && i < depth && staging[i].dirty
      modifies this`flashBytes, this`pagesProg, this`queueDepth, this`accepted, staging,
        ftl, ftl.memoryBuffer, ftl.eccBuffer
      ensures Valid() && ftl.Valid()
      ensures staging[..] == old(staging[..])[i := CLEAN] && accepted == old(accepted)[i := []]
      ensures queueDepth == old(queueDepth) - 1
      ensures pagesProg == old(pagesProg) + (if ok then 1 else 0)
      ensures flashBytes == old(flashBytes) + (if ok then PAGE_SIZE else 0)
      ensures ok <==> Programs(old(FtlRuns.StoreOf(ftl)), old(staging[i]))
      ensures ftl.Led() == StoreStep(old(FtlRuns.StoreOf(ftl)), old(staging[i])).led
      ensures ftl.intact ==>
                old(ftl.intact) && FtlRuns.StoreOf(ftl) == StoreStep(old(FtlRuns.StoreOf(ftl)), old(staging[i]))
      ensures ftl.sane <==> old(ftl.sane) && CleanSlotWrite(old(FtlRuns.StoreOf(ftl)), old(staging[i]))
      ensures ftl.intact <==> old(ftl.intact) && SafeSlotWrite(old(FtlRuns.StoreOf(ftl)), old(staging[i]))
      ensures old(staging[i]).baseLba + PAGE_SIZE <= ftl.capacity && old(ftl.sane)
              && old(ftl.FreeCount()) >= 1 + ftl.gcLowWatermark ==>
                && ok && ftl.sane && ftl.FreeCount() == old(ftl.FreeCount()) - 1
                && (old(ftl.Fresh()) ==> ftl.Fresh())
    {
      hide Ftl.FTJController.Valid;
      hide Ftl.FTJController.Shape;
      hide Ftl.FTJController.Fresh;
      hide Ftl.FTJController.Contents;
      hide Ftl.FTJController.NoVictim;
      hide FtlRuns.Fits;
      hide AllHold;
      hide CountDirty;
      hide Splice;
      hide Segments;
      hide Written;
      hide ClosingPasses;
      hide CleanWrite;
      hide SafeWrite;
      hide CleanRange;
      hide Formed;
      var pg := staging[i];
      ghost var done, passes;
      SlotFacts(i);
      OneSegment(pg.baseLba);
      ftl.ValidHasShape();
      ghost var st := FtlRuns.StoreOf(ftl);
      ok, done, passes := ftl.Write(pg.baseLba, pg.data);
      ftl.ValidHasShape();
      if ok {
        flashBytes := flashBytes + PAGE_SIZE;
        pagesProg := pagesProg + 1;
      }
      CleanSlot(i);
    }

    lemma SlotFacts(i: nat)
      requires Valid() && i < depth
      ensures |staging[i].data| == PAGE_SIZE && (staging[i].dirty ==> staging[i].baseLba % PAGE_SIZE == 0)
    {
      assert Holds(depth, i, staging[..][i], accepted[i]);
      BaseOfSlot(depth, i, staging[i], accepted[i]);
    }

    method CleanSlot(i: nat)
      requires Valid() && i < depth && staging[i].dirty
      modifies staging, this`queueDepth, this`accepted
      ensures Valid()
      ensures staging[..] == old(staging[..])[i := CLEAN] && accepted == old(accepted)[i := []]
      ensures queueDepth == old(queueDepth) - 1
    {
      ghost var before := staging[..];
      CountDirtyUpdate(before, i, CLEAN);
      assert Holds(depth, i, CLEAN, []);
      hide Holds;
      hide CountDirty;
      staging[i] := CLEAN;
      assert staging[..] == before[i := CLEAN];
      queueDepth := queueDepth - 1;
      accepted := accepted[i := []];
    }

    /** Flushes dirty slots in order, at most maxPages; cut is the first slot not looked at. */
    method FlushToFTL(ftl: FTJController, maxPages: nat) returns (flushed: nat, ghost cut: nat)
      requires Valid() && ftl.Valid()
      modifies this`flashBytes, this`pagesProg, this`queueDepth, this`accepted, this`gcCalls, this`blocksErased,
        staging, ftl, ftl.memoryBuffer, ftl.eccBuffer
      ensures Valid() && ftl.Valid()
      ensures cut <= depth && flushed <= maxPages && (cut == depth || flushed == maxPages)
      ensures flushed == CountDirty(old(staging[..])[..cut]) && queueDepth == old(queueDepth) - flushed
      ensures staging[..] == CleanUpTo(old(staging[..]), cut)
      ensures old(pagesProg) <= pagesProg <= old(pagesProg) + flushed
      ensures flashBytes - old(flashBytes) == PAGE_SIZE * (pagesProg - old(pagesProg))
      ensures pagesProg == old(pagesProg) + Programmed(old(FtlRuns.StoreOf(ftl)), old(staging[..]), cut)
      ensures var counted := if flushed > 0 && hostBytes > 0 && 2 * flashBytes > 3 * hostBytes then 1 else 0;
              gcCalls == old(gcCalls) + counted && blocksErased == old(blocksErased) + counted
      ensures ftl.Led() == FlushedStore(old(FtlRuns.StoreOf(ftl)), old(staging[..]), cut).led
      ensures ftl.intact ==>
                && old(ftl.intact)
                && FtlRuns.StoreOf(ftl) == FlushedStore(old(FtlRuns.StoreOf(ftl)), old(staging[..]), cut)
      ensures ftl.sane <==> old(ftl.sane) && CleanFlush(old(FtlRuns.StoreOf(ftl)), old(staging[..]), cut)
      ensures ftl.intact <==> old(ftl.intact) && SafeFlush(old(FtlRuns.StoreOf(ftl)), old(staging[..]), cut)
      ensures ftl.intact && pagesProg == old(pagesProg) + flushed ==>
                old(ftl.intact) && ftl.Contents() == Flushed(old(ftl.Contents()), old(staging[..]), cut)
      ensures old(ftl.sane) && old(ftl.FreeCount()) >= flushed + ftl.gcLowWatermark
              && BasesWithin(old(staging[..]), ftl.capacity) ==>
                && ftl.sane && pagesProg == old(pagesProg) + flushed
                && ftl.FreeCount() == old(ftl.FreeCount()) - flushed && (old(ftl.Fresh()) ==> ftl.Fresh())
    {
      hide Ftl.FTJController.Valid;
      hide Ftl.FTJController.Shape;
      hide Ftl.FTJController.Fresh;
      hide Ftl.FTJController.Contents;
      hide FtlRuns.Fits;
      hide AllHold;
      hide FlushStep;
      hide StoreStep;
      hide Programs;
      hide CleanSlotWrite;
      hide SafeSlotWrite;
      hide CountDirty;
      hide BasesWithin;
      hide Flushed;
      hide FlushedStore;
      hide Programmed;
      hide CleanFlush;
      hide SafeFlush;
      hide CleanUpTo;
      ftl.ValidHasShape();
      ghost var before, st := staging[..], FtlRuns.StoreOf(ftl);
      SlotsOwnPages(depth, before, accepted);
      NextSlot(before, 0, st.flat, ftl.capacity);
      NextStore(st, before, 0);
      flushed := 0;
      var i := 0;
      while i < depth && flushed < maxPages
        modifies this`flashBytes, this`pagesProg, this`queueDepth, this`accepted, staging,
          ftl, ftl.memoryBuffer, ftl.eccBuffer
        invariant Valid() && ftl.Valid() && ftl.Shape() && i <= depth && flushed <= maxPages && |before| == depth
        invariant flushed == CountDirty(before[..i]) && queueDepth == old(queueDepth) - flushed
        invariant staging[..] == CleanUpTo(before, i)
        invariant pagesProg == old(pagesProg) + Programmed(st, before, i)
        invariant flashBytes - old(flashBytes) == PAGE_SIZE * (pagesProg - old(pagesProg))
        invariant ftl.Led() == FlushedStore(st, before, i).led
        invariant ftl.intact ==> old(ftl.intact) && FtlRuns.StoreOf(ftl) == FlushedStore(st, before, i)
        invariant ftl.sane <==> old(ftl.sane) && CleanFlush(st, before, i)
        invariant ftl.intact <==> old(ftl.intact) && SafeFlush(st, before, i)
        invariant old(ftl.sane) && old(ftl.FreeCount()) >= flushed + ftl.gcLowWatermark
                  && BasesWithin(before, ftl.capacity) ==>
                    && ftl.sane && pagesProg == old(pagesProg) + flushed
                    && ftl.FreeCount() == old(ftl.FreeCount()) - flushed && (old(ftl.Fresh()) ==> ftl.Fresh())
      {
        StillThere(before, staging[..], i);
        NextSlot(before, i, st.flat, ftl.capacity);
        NextStore(st, before, i);
        SameStep(FtlRuns.StoreOf(ftl), FlushedStore(st, before, i), before[i]);
        var n := FlushIfDirty(ftl, i);
        ftl.ValidHasShape();
        flushed := flushed + n;
        i := i + 1;
      }
      cut := i;
      AllProgrammed(st, before, cut);
      AccountForGc(flushed);
    }

    /** The body of the flush loop. */
    method FlushIfDirty(ftl: FTJController, i: nat) returns (n: nat)
      requires Valid() && ftl.Valid() && i < depth
      modifies this`flashBytes, this`pagesProg, this`queueDepth, this`accepted, staging,
        ftl, ftl.memoryBuffer, ftl.eccBuffer
      ensures Valid() && ftl.Valid()
      ensures n == if old(staging[i]).dirty then 1 else 0
      ensures staging[..] == old(staging[..])[i := CLEAN] && queueDepth == old(queueDepth) - n
      ensures pagesProg == old(pagesProg) + if Programs(old(FtlRuns.StoreOf(ftl)), old(staging[i])) then 1 else 0
      ensures flashBytes - old(flashBytes) == PAGE_SIZE * (pagesProg - old(pagesProg))
      ensures ftl.Led() == StoreStep(old(FtlRuns.StoreOf(ftl)), old(staging[i])).led
      ensures ftl.intact ==>
                old(ftl.intact) && FtlRuns.StoreOf(ftl) == StoreStep(old(FtlRuns.StoreOf(ftl)), old(staging[i]))
      ensures ftl.sane <==> old(ftl.sane) && CleanSlotWrite(old(FtlRuns.StoreOf(ftl)), old(staging[i]))
      ensures ftl.intact <==> old(ftl.intact) && SafeSlotWrite(old(FtlRuns.StoreOf(ftl)), old(staging[i]))
      ensures (old(staging[i]).dirty ==> old(staging[i]).baseLba + PAGE_SIZE <= ftl.capacity) && old(ftl.sane)
              && old(ftl.FreeCount()) >= n + ftl.gcLowWatermark ==>
                && ftl.sane && pagesProg == old(pagesProg) + n
                && ftl.FreeCount() == old(ftl.FreeCount()) - n && (old(ftl.Fresh()) ==> ftl.Fresh())
    {
      hide Ftl.FTJController.Valid;
      hide Ftl.FTJController.Shape;
      hide Ftl.FTJController.Fresh;
      hide Ftl.FTJController.Contents;
      hide FtlRuns.Fits;
      hide StoreStep;
      hide Programs;
      hide CleanSlotWrite;
      hide SafeSlotWrite;
      hide AllHold;
      hide CountDirty;
      ftl.ValidHasShape();
      n := 0;
      if staging[i].dirty {
        var ok := FlushSlot(ftl, i);
        n := 1;
      } else {
        CleanAlready(i);
        NoSlotWrite(FtlRuns.StoreOf(ftl), staging[i]);
      }
    }

    lemma CleanAlready(i: nat)
      requires Valid() && i < depth && !staging[i].dirty
      ensures staging[i] == CLEAN && accepted[i] == []
    {
      assert Holds(depth, i, staging[..][i], accepted[i]);
    }

    /** A collection is counted when flash bytes exceed host bytes by more than half. */
    method AccountForGc(flushed: nat)
      modifies this`gcCalls, this`blocksErased
      ensures var counted := if flushed > 0 && hostBytes > 0 && 2 * flashBytes > 3 * hostBytes then 1 else 0;
              gcCalls == old(gcCalls) + counted && blocksErased == old(blocksErased) + counted
    {
      if flushed > 0 && flashBytes > 0 && hostBytes > 0 {
        if 2 * flashBytes > 3 * hostBytes {
          gcCalls := gcCalls + 1;
          blocksErased := blocksErased + 1;
        }
      }
    }

    /** Counts the dirty slots: always the queue depth. */
    method GetPendingPages() returns (count: nat)
      requires Valid()
      ensures count == queueDepth
      ensures count == 0 <==> forall i :: 0 <= i < depth ==> accepted[i] == []
    {
      count := 0;
      for i := 0 to depth
        invariant count == CountDirty(staging[..i])
      {
        assert staging[..i + 1][..i] == staging[..i];
        if staging[i].dirty {
          count := count + 1;
        }
      }
      assert staging[..depth] == staging[..];
      CountDirtyNone(staging[..]);
      assert forall i :: 0 <= i < depth ==> Holds(depth, i, staging[i], accepted[i]);
    }

    /** Empties the buffer and its counters. */
    method Reset()
      requires Valid()
      modifies this, staging
      ensures Valid() && accepted == seq(depth, _ => [])
      ensures hostBytes == flashBytes == gcCalls == blocksErased == pagesProg == queueDepth == 0
    {
      hide Holds;
      hide CountDirty;
      for i := 0 to depth
        modifies staging
        invariant forall k :: 0 <= k < i ==> staging[k] == CLEAN
      {
        staging[i] := CLEAN;
      }
      accepted := seq(depth, _ => []);
      hostBytes, flashBytes, gcCalls, blocksErased, pagesProg, queueDepth := 0, 0, 0, 0, 0, 0;
      CountDirtyNone(staging[..]);
      AllClean(depth, staging[..], accepted);
    }
  }
}
