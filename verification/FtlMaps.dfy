/** The mapping tables of the flash translation layer, as values. */
module FtlMaps {
  import opened PageStore
  import opened Splices
  import opened Ecc

  const PAGES_PER_BLOCK: nat := 256

  function Max1(x: nat): nat {
    if x > 1 then x else 1
  }

  /** Page counts for which every page lies in a block that has a counter. */
  predicate WholeBlocks(n: nat) {
    n % PAGES_PER_BLOCK == 0 || n < PAGES_PER_BLOCK
  }

  /** Capacities for which the source stays inside its tables: whole pages, and whole blocks or less than one. */
  predicate Whole(capacity: nat) {
    capacity % PAGE_SIZE == 0 && WholeBlocks(capacity / PAGE_SIZE)
  }

  /** How many pages the source counts in a capacity: a part of one counts as one. */
  function PagesIn(capacity: nat): nat {
    (capacity + PAGE_SIZE - 1) / PAGE_SIZE
  }

  /** The page has a counter for its block, and lies in the buffer whole. */
  predicate InTables(capacity: nat, p: nat) {
    p / PAGES_PER_BLOCK < Max1(PagesIn(capacity) / PAGES_PER_BLOCK) && (p + 1) * PAGE_SIZE <= capacity
  }

  /** For any other capacity the last page is outside the tables. */
  lemma WholeExactly(capacity: nat)
    ensures Whole(capacity) <==> forall p: nat :: p < PagesIn(capacity) ==> InTables(capacity, p)
  {
    var n := PagesIn(capacity);
    if !Whole(capacity) {
      assert n > 0 && !InTables(capacity, n - 1);
    } else {
      WholePages(capacity);
      forall p: nat | p < n ensures InTables(capacity, p) {
        assert (p + 1) * PAGE_SIZE <= n * PAGE_SIZE;
      }
    }
  }

  lemma WholePages(capacity: nat)
    requires Whole(capacity)
    ensures PagesIn(capacity) * PAGE_SIZE == capacity && (capacity + 7) / 8 == PagesIn(capacity) * CHUNKS
    ensures WholeBlocks(PagesIn(capacity)) && PagesIn(capacity) == capacity / PAGE_SIZE
  {
  }

  /** Forward and reverse maps agree on the valid pages, so the forward map is injective. */
  ghost predicate Agree(n: nat, l2p: seq<int>, valid: seq<bool>, owner: seq<int>) {
    && |l2p| == n && |valid| == n && |owner| == n
    && (forall lp :: 0 <= lp < n && l2p[lp] >= 0 ==>
          l2p[lp] < n && valid[l2p[lp]] && owner[l2p[lp]] == lp)
    && (forall p :: 0 <= p < n && valid[p] ==> 0 <= owner[p] < n && l2p[owner[p]] == p)
    && (forall p :: 0 <= p < n && !valid[p] ==> owner[p] == -1)
  }

  lemma MapInjective(n: nat, l2p: seq<int>, valid: seq<bool>, owner: seq<int>, a: nat, b: nat)
    requires Agree(n, l2p, valid, owner) && a < n && b < n && l2p[a] == l2p[b] >= 0
    ensures a == b
  {
  }

  /** Moving logical page lp from its old physical page, if any, to the page new. */
  lemma RemapAgrees(n: nat, l2p: seq<int>, valid: seq<bool>, owner: seq<int>, lp: nat, new_: nat)
    requires Agree(n, l2p, valid, owner) && lp < n && new_ < n && !valid[new_]
    ensures var old_ := l2p[lp];
            && (old_ < 0 ==> Agree(n, l2p[lp := new_], valid[new_ := true], owner[new_ := lp]))
            && (old_ >= 0 ==>
                  Agree(n, l2p[lp := new_], valid[new_ := true][old_ := false], owner[new_ := lp][old_ := -1]))
  {
  }

  // ---------------------------------------------------------------- free lists

  ghost predicate DistinctInts(s: seq<int>) {
    forall i, j :: 0 <= i < j < |s| ==> s[i] != s[j]
  }

  ghost predicate InFree(hot: seq<int>, cold: seq<int>, p: int) {
    p in hot || p in cold
  }

  /** No page is listed twice. */
  ghost predicate NoDup(hot: seq<int>, cold: seq<int>) {
    DistinctInts(hot) && DistinctInts(cold) && forall p :: p in hot ==> p !in cold
  }

  /** Free pages exist and hold no logical page. */
  ghost predicate FreeInvalid(n: nat, valid: seq<bool>, hot: seq<int>, cold: seq<int>)
    requires |valid| == n
  {
    forall p :: InFree(hot, cold, p) ==> 0 <= p < n && !valid[p]
  }

  lemma PopBack(s: seq<int>, rest: seq<int>, p: int)
    requires DistinctInts(s) && s == rest + [p]
    ensures DistinctInts(rest) && p !in rest && forall x :: x in rest ==> x in s
  {
    assert forall i :: 0 <= i < |rest| ==> rest[i] == s[i];
    assert s[|rest|] == p;
  }

  /** A page taken off duplicate-free lists is on neither any more. */
  lemma TakenOnce(hot: seq<int>, cold: seq<int>, hot': seq<int>, cold': seq<int>, p: int)
    requires NoDup(hot, cold)
    requires (hot == hot' + [p] && cold' == cold) || (cold == cold' + [p] && hot' == hot)
    ensures NoDup(hot', cold') && !InFree(hot', cold', p) && InFree(hot, cold, p)
    ensures forall x :: InFree(hot', cold', x) ==> InFree(hot, cold, x)
  {
    if hot == hot' + [p] && cold' == cold {
      PopBack(hot, hot', p);
    } else {
      PopBack(cold, cold', p);
    }
  }

  /** The invalid pages of a range, ascending: what an erase frees. */
  function InvalidIn(valid: seq<bool>, lo: nat, hi: nat): (s: seq<int>)
    requires lo <= hi <= |valid|
    decreases hi - lo
  {
    if lo == hi then [] else InvalidIn(valid, lo, hi - 1) + (if valid[hi - 1] then [] else [hi - 1])
  }

  lemma {:induction false} InvalidInExactly(valid: seq<bool>, lo: nat, hi: nat)
    requires lo <= hi <= |valid|
    ensures forall p :: p in InvalidIn(valid, lo, hi) <==> lo <= p < hi && !valid[p]
    decreases hi - lo
  {
    if lo < hi {
      InvalidInExactly(valid, lo, hi - 1);
    }
  }

  lemma {:induction false} InvalidInAscends(valid: seq<bool>, lo: nat, hi: nat)
    requires lo <= hi <= |valid|
    ensures forall i :: 0 <= i < |InvalidIn(valid, lo, hi)| ==> lo <= InvalidIn(valid, lo, hi)[i] < hi
    ensures DistinctInts(InvalidIn(valid, lo, hi))
    decreases hi - lo
  {
    if lo < hi {
      InvalidInAscends(valid, lo, hi - 1);
    }
  }

  lemma AppendDistinct(a: seq<int>, b: seq<int>)
    requires DistinctInts(a) && DistinctInts(b)
    ensures DistinctInts(a + b) <==> forall x :: x in b ==> x !in a
  {
    var s := a + b;
    if forall x :: x in b ==> x !in a {
      forall i, j | 0 <= i < j < |s| ensures s[i] != s[j] {
        if i < |a| <= j {
          assert b[j - |a|] in b && a[i] in a;
        }
      }
    }
    if DistinctInts(s) {
      forall x | x in b ensures x !in a {
        var j :| 0 <= j < |b| && b[j] == x;
        assert s[|a| + j] == x;
        assert forall i :: 0 <= i < |a| ==> s[i] == a[i];
      }
    }
  }

  /** Erasing a block keeps the free lists duplicate-free exactly when none of its pages was free. */
  lemma EraseNoDup(valid: seq<bool>, hot: seq<int>, cold: seq<int>, lo: nat, hi: nat)
    requires lo <= hi <= |valid| && NoDup(hot, cold) && FreeInvalid(|valid|, valid, hot, cold)
    ensures var freed := InvalidIn(valid, lo, hi);
            && (NoDup(hot + freed, cold) <==> forall p :: lo <= p < hi ==> !InFree(hot, cold, p))
            && (NoDup(hot, cold + freed) <==> forall p :: lo <= p < hi ==> !InFree(hot, cold, p))
  {
    var freed := InvalidIn(valid, lo, hi);
    InvalidInExactly(valid, lo, hi);
    InvalidInAscends(valid, lo, hi);
    AppendDistinct(hot, freed);
    AppendDistinct(cold, freed);
    assert forall p :: p in freed <==> lo <= p < hi && !valid[p];
    if forall p :: lo <= p < hi ==> !InFree(hot, cold, p) {
      assert forall x :: x in freed ==> !InFree(hot, cold, x);
    } else {
      var p :| lo <= p < hi && InFree(hot, cold, p);
      assert p in freed;
      assert p in hot + freed && p in cold + freed;
    }
  }

  /** One free page in a block is enough: erasing the block lists that page a second time. */
  lemma EraseCanListTwice()
    ensures var valid: seq<bool> := seq(PAGES_PER_BLOCK, _ => false);
            && NoDup([0], []) && FreeInvalid(PAGES_PER_BLOCK, valid, [0], [])
            && !NoDup([0] + InvalidIn(valid, 0, PAGES_PER_BLOCK), [])
  {
    var valid: seq<bool> := seq(PAGES_PER_BLOCK, _ => false);
    EraseNoDup(valid, [0], [], 0, PAGES_PER_BLOCK);
    assert InFree([0], [], 0);
  }

  // ---------------------------------------------------------------- counters

  function CountValid(valid: seq<bool>, lo: nat, hi: nat): nat
    requires lo <= hi <= |valid|
    decreases hi - lo
  {
    if lo == hi then 0 else CountValid(valid, lo, hi - 1) + if valid[hi - 1] then 1 else 0
  }

  lemma {:induction false} CountUpdate(valid: seq<bool>, lo: nat, hi: nat, p: nat, v: bool)
    requires lo <= hi <= |valid| && p < |valid|
    ensures CountValid(valid[p := v], lo, hi) == CountValid(valid, lo, hi)
              + (if lo <= p < hi then (if v then 1 else 0) - (if valid[p] then 1 else 0) else 0)
    decreases hi - lo
  {
    if lo < hi {
      CountUpdate(valid, lo, hi - 1, p, v);
    }
  }

  function BlockOf(p: nat): nat {
    p / PAGES_PER_BLOCK
  }

  function BlockStart(b: nat): nat {
    b * PAGES_PER_BLOCK
  }

  function BlockEnd(n: nat, b: nat): nat {
    if BlockStart(b + 1) < n then BlockStart(b + 1) else n
  }

  /** Each block's counter is at most the number of its valid pages. */
  ghost predicate CountersBelow(n: nat, valid: seq<bool>, blockValid: seq<int>)
    requires |valid| == n
  {
    && n <= |blockValid| * PAGES_PER_BLOCK
    && forall b :: 0 <= b < |blockValid| ==>
         BlockStart(b) <= BlockEnd(n, b) && 0 <= blockValid[b] <= CountValid(valid, BlockStart(b), BlockEnd(n, b))
  }

  lemma CounterUp(n: nat, valid: seq<bool>, blockValid: seq<int>, p: nat)
    requires |valid| == n && CountersBelow(n, valid, blockValid) && p < n && !valid[p]
    ensures BlockOf(p) < |blockValid|
    ensures CountersBelow(n, valid[p := true], blockValid[BlockOf(p) := blockValid[BlockOf(p)] + 1])
  {
    var bv := blockValid[BlockOf(p) := blockValid[BlockOf(p)] + 1];
    forall b | 0 <= b < |blockValid|
      ensures BlockStart(b) <= BlockEnd(n, b)
      ensures 0 <= bv[b] <= CountValid(valid[p := true], BlockStart(b), BlockEnd(n, b))
    {
      CountUpdate(valid, BlockStart(b), BlockEnd(n, b), p, true);
    }
  }

  lemma CounterDown(n: nat, valid: seq<bool>, blockValid: seq<int>, p: nat)
    requires |valid| == n && CountersBelow(n, valid, blockValid) && p < n && valid[p]
    ensures BlockOf(p) < |blockValid|
    ensures CountersBelow(n, valid[p := false],
              blockValid[BlockOf(p) := if blockValid[BlockOf(p)] - 1 > 0 then blockValid[BlockOf(p)] - 1 else 0])
  {
    var v := if blockValid[BlockOf(p)] - 1 > 0 then blockValid[BlockOf(p)] - 1 else 0;
    var bv := blockValid[BlockOf(p) := v];
    forall b | 0 <= b < |blockValid|
      ensures BlockStart(b) <= BlockEnd(n, b)
      ensures 0 <= bv[b] <= CountValid(valid[p := false], BlockStart(b), BlockEnd(n, b))
    {
      CountUpdate(valid, BlockStart(b), BlockEnd(n, b), p, false);
    }
  }

  function Sum(s: seq<nat>): nat {
    if s == [] then 0 else Sum(s[..|s| - 1]) + s[|s| - 1]
  }

  lemma {:induction false} SumIncrement(s: seq<nat>, p: nat)
    requires p < |s|
    ensures Sum(s[p := s[p] + 1]) == Sum(s) + 1
  {
    var n := |s| - 1;
    if p == n {
      assert s[p := s[p] + 1][..n] == s[..n];
    } else {
      SumIncrement(s[..n], p);
      assert s[p := s[p] + 1][..n] == s[..n][p := s[..n][p] + 1];
    }
  }

  lemma {:induction false} SumZero(s: seq<nat>)
    requires forall i :: 0 <= i < |s| ==> s[i] == 0
    ensures Sum(s) == 0
  {
    if s != [] {
      SumZero(s[..|s| - 1]);
    }
  }

  // ---------------------------------------------------------------- the logical view

  /** The bytes a logical page reads as. */
  function LogicalPage(n: nat, l2p: seq<int>, mem: seq<Byte>, lp: nat): (b: seq<Byte>)
    requires |l2p| == n && |mem| == n * PAGE_SIZE && lp < n && l2p[lp] < n
    ensures |b| == PAGE_SIZE
  {
    if l2p[lp] < 0 then ZeroPage() else PageOf(n, mem, l2p[lp])
  }

  function PageOf(n: nat, mem: seq<Byte>, p: nat): (b: seq<Byte>)
    requires |mem| == n * PAGE_SIZE && p < n
    ensures |b| == PAGE_SIZE
  {
    assert (p + 1) * PAGE_SIZE <= n * PAGE_SIZE;
    PageBytes(mem, p)
  }

  function ChecksOf(n: nat, ecc: seq<Check>, p: nat): (c: seq<Check>)
    requires |ecc| == n * CHUNKS && p < n
    ensures |c| == CHUNKS
  {
    assert (p + 1) * CHUNKS <= n * CHUNKS;
    PageChecks(ecc, p)
  }

  /** The stored codes of every page match its bytes. */
  ghost predicate AllChecks(n: nat, mem: seq<Byte>, ecc: seq<Check>)
    requires |mem| == n * PAGE_SIZE && |ecc| == n * CHUNKS
  {
    forall p: nat :: p < n ==> ChecksMatch(PageOf(n, mem, p), ChecksOf(n, ecc, p))
  }

  lemma ProgramChecks(n: nat, mem0: seq<Byte>, ecc0: seq<Check>, mem: seq<Byte>, ecc: seq<Check>, p: nat)
    requires |mem0| == |mem| == n * PAGE_SIZE && |ecc0| == |ecc| == n * CHUNKS && p < n
    requires OthersSame(mem0, ecc0, mem, ecc, n, p) && AllChecks(n, mem0, ecc0)
    requires ChecksMatch(PageOf(n, mem, p), ChecksOf(n, ecc, p))
    ensures AllChecks(n, mem, ecc)
  {
    hide ChecksMatch;
    forall q: nat | q < n && q != p ensures ChecksMatch(PageOf(n, mem, q), ChecksOf(n, ecc, q)) {
      assert (q + 1) * PAGE_SIZE <= n * PAGE_SIZE && (q + 1) * CHUNKS <= n * CHUNKS;
      assert SamePage(mem0, ecc0, mem, ecc, q);
      assert ChecksMatch(PageOf(n, mem0, q), ChecksOf(n, ecc0, q));
    }
  }

  lemma BlankChecks(n: nat, mem: seq<Byte>, ecc: seq<Check>)
    requires |mem| == n * PAGE_SIZE && |ecc| == n * CHUNKS
    requires forall i :: 0 <= i < |mem| ==> mem[i] == ZERO
    requires forall i :: 0 <= i < |ecc| ==> ecc[i] == Zeros(CHECK_BITS)
    ensures AllChecks(n, mem, ecc)
  {
    forall p: nat | p < n ensures ChecksMatch(PageOf(n, mem, p), ChecksOf(n, ecc, p)) {
      var page, checks := PageOf(n, mem, p), ChecksOf(n, ecc, p);
      assert page == ZeroPage();
      forall c: nat | c < CHUNKS ensures checks[c] == Encode(ChunkWord(page, c)) {
        ZeroChunk(c);
      }
    }
  }

  /** The maps agree, free pages hold nothing, the counters are bounded. */
  ghost predicate CoherentAt(n: nat, l2p: seq<int>, valid: seq<bool>, owner: seq<int>, blockValid: seq<int>,
    hot: seq<int>, cold: seq<int>)
    requires |l2p| == |valid| == n
  {
    && Agree(n, l2p, valid, owner)
    && FreeInvalid(n, valid, hot, cold)
    && CountersBelow(n, valid, blockValid)
  }

  lemma StartsCoherent(n: nat, l2p: seq<int>, valid: seq<bool>, owner: seq<int>, blockValid: seq<int>,
    hot: seq<int>, cold: seq<int>)
    requires |l2p| == |valid| == |owner| == n
    requires WholeBlocks(n)
    requires n <= |blockValid| * PAGES_PER_BLOCK && |blockValid| <= Max1(n / PAGES_PER_BLOCK)
    requires forall p :: 0 <= p < n ==> l2p[p] == owner[p] == -1 && !valid[p]
    requires forall b :: 0 <= b < |blockValid| ==> blockValid[b] == 0
    requires forall p :: InFree(hot, cold, p) ==> 0 <= p < n
    ensures CoherentAt(n, l2p, valid, owner, blockValid, hot, cold)
  {
  }

  /** Taking a page off duplicate-free lists keeps the tables coherent; it holds nothing and is free no more. */
  lemma TakenCoherent(n: nat, l2p: seq<int>, valid: seq<bool>, owner: seq<int>, blockValid: seq<int>,
    hot: seq<int>, cold: seq<int>, hot': seq<int>, cold': seq<int>, p: int)
    requires |l2p| == |valid| == n && CoherentAt(n, l2p, valid, owner, blockValid, hot, cold) && NoDup(hot, cold)
    requires (hot == hot' + [p] && cold' == cold) || (cold == cold' + [p] && hot' == hot)
    ensures CoherentAt(n, l2p, valid, owner, blockValid, hot', cold') && NoDup(hot', cold')
    ensures 0 <= p < n && !valid[p] && !InFree(hot', cold', p)
  {
    hide Agree;
    hide CountersBelow;
    TakenOnce(hot, cold, hot', cold', p);
  }

  /** Coherent tables stay so when the free lists are no longer looked at. */
  lemma Unlisted(n: nat, l2p: seq<int>, valid: seq<bool>, owner: seq<int>, blockValid: seq<int>,
    hot: seq<int>, cold: seq<int>)
    requires |l2p| == |valid| == n && CoherentAt(n, l2p, valid, owner, blockValid, hot, cold)
    ensures CoherentAt(n, l2p, valid, owner, blockValid, [], [])
  {
  }

  lemma FlatOfNothing(n: nat, l2p: seq<int>, mem: seq<Byte>)
    requires |l2p| == n && |mem| == n * PAGE_SIZE && forall p :: 0 <= p < n ==> l2p[p] == -1
    ensures Flat(n, l2p, mem) == seq(n * PAGE_SIZE, _ => ZERO)
  {
  }

  function ValidAfter(valid: seq<bool>, new_: nat, old_: int): (v: seq<bool>)
    requires new_ < |valid| && old_ < |valid|
    ensures |v| == |valid|
  {
    if old_ >= 0 then valid[new_ := true][old_ := false] else valid[new_ := true]
  }

  function OwnerAfter(owner: seq<int>, lp: nat, new_: nat, old_: int): (o: seq<int>)
    requires new_ < |owner| && old_ < |owner|
    ensures |o| == |owner|
  {
    if old_ >= 0 then owner[new_ := lp][old_ := -1] else owner[new_ := lp]
  }

  function Decremented(blockValid: seq<int>, b: nat): (bv: seq<int>)
    requires b < |blockValid|
    ensures |bv| == |blockValid|
  {
    blockValid[b := if blockValid[b] - 1 > 0 then blockValid[b] - 1 else 0]
  }

  function CountersAfter(blockValid: seq<int>, new_: nat, old_: int): (bv: seq<int>)
    requires BlockOf(new_) < |blockValid| && (old_ >= 0 ==> BlockOf(old_) < |blockValid|)
    ensures |bv| == |blockValid|
  {
    var up := blockValid[BlockOf(new_) := blockValid[BlockOf(new_)] + 1];
    if old_ >= 0 then Decremented(up, BlockOf(old_)) else up
  }

  /** Mapping lp to a fresh page, and making its old page stale, keeps all coherent. */
  lemma RemapCoherent(n: nat, l2p: seq<int>, valid: seq<bool>, owner: seq<int>, blockValid: seq<int>,
    hot: seq<int>, cold: seq<int>, lp: nat, new_: nat)
    requires |l2p| == |valid| == n && lp < n && new_ < n
    requires CoherentAt(n, l2p, valid, owner, blockValid, hot, cold)
    requires !valid[new_] && !InFree(hot, cold, new_)
    ensures var old_ := l2p[lp];
            && BlockOf(new_) < |blockValid| && (old_ >= 0 ==> BlockOf(old_) < |blockValid|)
            && CoherentAt(n, l2p[lp := new_], ValidAfter(valid, new_, old_), OwnerAfter(owner, lp, new_, old_),
                          CountersAfter(blockValid, new_, old_), hot, cold)
  {
    hide Agree;
    hide CountersBelow;
    hide BlockOf;
    hide InFree;
    OldIsValid(n, l2p, valid, owner, lp);
    RemapAgrees(n, l2p, valid, owner, lp, new_);
    CounterUp(n, valid, blockValid, new_);
    if l2p[lp] >= 0 {
      CounterDown(n, valid[new_ := true], blockValid[BlockOf(new_) := blockValid[BlockOf(new_)] + 1], l2p[lp]);
    }
  }

  lemma OldIsValid(n: nat, l2p: seq<int>, valid: seq<bool>, owner: seq<int>, lp: nat)
    requires Agree(n, l2p, valid, owner) && lp < n
    ensures |l2p| == |valid| == |owner| == n && l2p[lp] < n && (l2p[lp] >= 0 ==> valid[l2p[lp]])
  {
  }

  lemma OthersTransitive(mem0: seq<Byte>, ecc0: seq<Check>, mem1: seq<Byte>, ecc1: seq<Check>,
    mem2: seq<Byte>, ecc2: seq<Check>, n: nat, p: nat)
    requires |mem0| == |mem1| == |mem2| == n * PAGE_SIZE && |ecc0| == |ecc1| == |ecc2| == n * CHUNKS
    requires OthersSame(mem0, ecc0, mem1, ecc1, n, p) && OthersSame(mem1, ecc1, mem2, ecc2, n, p)
    ensures OthersSame(mem0, ecc0, mem2, ecc2, n, p)
  {
    forall q: nat | q < n && q != p ensures SamePage(mem0, ecc0, mem2, ecc2, q) {
      assert SamePage(mem0, ecc0, mem1, ecc1, q) && SamePage(mem1, ecc1, mem2, ecc2, q);
    }
  }

  /** Programming a page that no logical page is mapped to changes no logical page. */
  lemma UnmappedProgram(n: nat, l2p: seq<int>, mem0: seq<Byte>, ecc0: seq<Check>, mem: seq<Byte>, ecc: seq<Check>,
    p: nat)
    requires |l2p| == n && (forall lp :: 0 <= lp < n ==> l2p[lp] < n && l2p[lp] != p)
    requires |mem0| == |mem| == n * PAGE_SIZE && |ecc0| == |ecc| == n * CHUNKS
    requires OthersSame(mem0, ecc0, mem, ecc, n, p)
    ensures forall lp: nat :: lp < n ==> LogicalPage(n, l2p, mem, lp) == LogicalPage(n, l2p, mem0, lp)
    ensures forall lp: nat :: lp < n && l2p[lp] >= 0 ==> ChecksOf(n, ecc, l2p[lp]) == ChecksOf(n, ecc0, l2p[lp])
  {
    hide ChecksMatch;
    forall lp: nat | lp < n && l2p[lp] >= 0
      ensures PageOf(n, mem, l2p[lp]) == PageOf(n, mem0, l2p[lp])
      ensures ChecksOf(n, ecc, l2p[lp]) == ChecksOf(n, ecc0, l2p[lp])
    {
      assert SamePage(mem0, ecc0, mem, ecc, l2p[lp]);
    }
  }

  /** The flat byte array that the store looks like. */
  function Flat(n: nat, l2p: seq<int>, mem: seq<Byte>): (f: seq<Byte>)
    requires |l2p| == n && |mem| == n * PAGE_SIZE && forall lp :: 0 <= lp < n ==> l2p[lp] < n
    ensures |f| == n * PAGE_SIZE
  {
    seq(n * PAGE_SIZE, i requires 0 <= i < n * PAGE_SIZE =>
      LogicalPage(n, l2p, mem, i / PAGE_SIZE)[i % PAGE_SIZE])
  }

  /** The same pages read the same bytes. */
  lemma FlatSame(n: nat, l2p: seq<int>, mem: seq<Byte>, l2p': seq<int>, mem': seq<Byte>)
    requires |l2p| == n && |mem| == n * PAGE_SIZE && forall lp :: 0 <= lp < n ==> l2p[lp] < n
    requires |l2p'| == n && |mem'| == n * PAGE_SIZE && forall lp :: 0 <= lp < n ==> l2p'[lp] < n
    requires forall lp: nat :: lp < n ==> LogicalPage(n, l2p', mem', lp) == LogicalPage(n, l2p, mem, lp)
    ensures Flat(n, l2p', mem') == Flat(n, l2p, mem)
  {
  }

  /** Splicing one logical page splices the flat array. */
  lemma FlatSplice(n: nat, l2p: seq<int>, mem: seq<Byte>, l2p': seq<int>, mem': seq<Byte>,
    lp: nat, at: nat, data: seq<Byte>)
    requires |l2p| == n && |mem| == n * PAGE_SIZE && forall x :: 0 <= x < n ==> l2p[x] < n
    requires |l2p'| == n && |mem'| == n * PAGE_SIZE && forall x :: 0 <= x < n ==> l2p'[x] < n
    requires lp < n && at + |data| <= PAGE_SIZE
    requires forall x: nat :: x < n && x != lp ==> LogicalPage(n, l2p', mem', x) == LogicalPage(n, l2p, mem, x)
    requires LogicalPage(n, l2p', mem', lp) == Splice(LogicalPage(n, l2p, mem, lp), at, data)
    ensures lp * PAGE_SIZE + at + |data| <= n * PAGE_SIZE
    ensures Flat(n, l2p', mem') == Splice(Flat(n, l2p, mem), lp * PAGE_SIZE + at, data)
  {
    hide LogicalPage;
    assert (lp + 1) * PAGE_SIZE <= n * PAGE_SIZE;
    var f, g := Flat(n, l2p, mem), Flat(n, l2p', mem');
    var start := lp * PAGE_SIZE + at;
    var page := LogicalPage(n, l2p, mem, lp);
    forall i | 0 <= i < n * PAGE_SIZE ensures g[i] == Splice(f, start, data)[i] {
      var x, o := i / PAGE_SIZE, i % PAGE_SIZE;
      SplitIndex(i, x, o, lp, at, |data|);
      assert g[i] == LogicalPage(n, l2p', mem', x)[o] && f[i] == LogicalPage(n, l2p, mem, x)[o];
      if start <= i < start + |data| {
        assert Splice(page, at, data)[o] == data[o - at];
      } else if x == lp {
        assert Splice(page, at, data)[o] == page[o];
      }
    }
  }

  /** A slice of the flat array within one page is a slice of that logical page. */
  lemma FlatSlice(n: nat, l2p: seq<int>, mem: seq<Byte>, lp: nat, at: nat, len: nat)
    requires |l2p| == n && |mem| == n * PAGE_SIZE && forall x :: 0 <= x < n ==> l2p[x] < n
    requires lp < n && at + len <= PAGE_SIZE
    ensures lp * PAGE_SIZE + at + len <= n * PAGE_SIZE
    ensures Flat(n, l2p, mem)[lp * PAGE_SIZE + at..lp * PAGE_SIZE + at + len]
              == LogicalPage(n, l2p, mem, lp)[at..at + len]
  {
    hide LogicalPage;
    assert (lp + 1) * PAGE_SIZE <= n * PAGE_SIZE;
    var start := lp * PAGE_SIZE + at;
    var x, y := Flat(n, l2p, mem)[start..start + len], LogicalPage(n, l2p, mem, lp)[at..at + len];
    forall i | 0 <= i < len ensures x[i] == y[i] {
      assert (start + i) / PAGE_SIZE == lp && (start + i) % PAGE_SIZE == at + i;
      assert x[i] == Flat(n, l2p, mem)[start + i];
    }
  }

  // ---------------------------------------------------------------- what a collection must not change

  /** The forward map with the memory it points into. */
  datatype Image = Image(l2p: seq<int>, mem: seq<Byte>, ecc: seq<Check>)

  ghost predicate ImageFits(n: nat, im: Image) {
    && |im.l2p| == n && |im.mem| == n * PAGE_SIZE && |im.ecc| == n * CHUNKS
    && forall lp :: 0 <= lp < n ==> im.l2p[lp] < n
  }

  /** Logical page lp has the same bytes and, if mapped, the same stored codes. */
  ghost predicate SameAt(n: nat, before: Image, after: Image, lp: nat)
    requires ImageFits(n, before) && ImageFits(n, after) && lp < n
  {
    && LogicalPage(n, after.l2p, after.mem, lp) == LogicalPage(n, before.l2p, before.mem, lp)
    && (before.l2p[lp] >= 0 <==> after.l2p[lp] >= 0)
    && (after.l2p[lp] >= 0 && before.l2p[lp] >= 0 ==>
          ChecksOf(n, after.ecc, after.l2p[lp]) == ChecksOf(n, before.ecc, before.l2p[lp]))
  }

  /** Every logical page has the same bytes and codes. */
  ghost predicate SameLogical(n: nat, before: Image, after: Image) {
    ImageFits(n, before) && ImageFits(n, after) && forall lp: nat :: lp < n ==> SameAt(n, before, after, lp)
  }

  lemma SameLogicalTransitive(n: nat, a: Image, b: Image, c: Image)
    requires SameLogical(n, a, b) && SameLogical(n, b, c)
    ensures SameLogical(n, a, c)
  {
    hide LogicalPage;
    hide ChecksOf;
    forall lp: nat | lp < n ensures SameAt(n, a, c, lp) {
      assert SameAt(n, a, b, lp) && SameAt(n, b, c, lp);
    }
  }

  lemma SameLogicalFlat(n: nat, a: Image, b: Image)
    requires SameLogical(n, a, b)
    ensures Flat(n, b.l2p, b.mem) == Flat(n, a.l2p, a.mem)
  {
    forall lp: nat | lp < n ensures LogicalPage(n, b.l2p, b.mem, lp) == LogicalPage(n, a.l2p, a.mem, lp) {
      assert SameAt(n, a, b, lp);
    }
    FlatSame(n, a.l2p, a.mem, b.l2p, b.mem);
  }

  /** Copying a mapped page to an unmapped one and mapping its owner there changes no logical page. */
  lemma MoveSame(n: nat, before: Image, mem: seq<Byte>, ecc: seq<Check>, owner: nat, p: nat, newP: nat)
    requires ImageFits(n, before) && owner < n && p < n && newP < n && before.l2p[owner] == p
    requires forall lp :: 0 <= lp < n ==> before.l2p[lp] != newP
    requires |mem| == n * PAGE_SIZE && |ecc| == n * CHUNKS
    requires OthersSame(before.mem, before.ecc, mem, ecc, n, newP)
    requires PageOf(n, mem, newP) == PageOf(n, before.mem, p) && ChecksOf(n, ecc, newP) == ChecksOf(n, before.ecc, p)
    ensures SameLogical(n, before, Image(before.l2p[owner := newP], mem, ecc))
  {
    var after := Image(before.l2p[owner := newP], mem, ecc);
    UnmappedProgram(n, before.l2p, before.mem, before.ecc, mem, ecc, newP);
    forall lp: nat | lp < n ensures SameAt(n, before, after, lp) {
      if lp != owner {
        assert LogicalPage(n, before.l2p, mem, lp) == LogicalPage(n, before.l2p, before.mem, lp);
      }
    }
  }

  /** No page of the range that was valid is still valid. */
  ghost predicate NoneLeft(valid0: seq<bool>, valid: seq<bool>, lo: nat, hi: nat)
    requires hi <= |valid0| && hi <= |valid|
  {
    forall q :: lo <= q < hi ==> !(valid0[q] && valid[q])
  }

  /** The free lists hold no more pages than they did. */
  ghost predicate NoMoreFree(hot: seq<int>, cold: seq<int>, hot0: seq<int>, cold0: seq<int>) {
    forall x :: InFree(hot, cold, x) ==> InFree(hot0, cold0, x)
  }

  /** Pages have become valid only by being taken off the free lists. */
  ghost predicate NewFromFree(valid: seq<bool>, hot: seq<int>, cold: seq<int>, valid': seq<bool>)
    requires |valid| == |valid'|
  {
    forall q :: 0 <= q < |valid| && valid'[q] ==> valid[q] || InFree(hot, cold, q)
  }

  lemma NoneLeftYet(valid0: seq<bool>, valid: seq<bool>, lo: nat)
    requires lo <= |valid0| && lo <= |valid|
    ensures NoneLeft(valid0, valid, lo, lo)
  {
  }

  lemma NewFromFreeRefl(valid: seq<bool>, hot: seq<int>, cold: seq<int>)
    ensures NewFromFree(valid, hot, cold, valid)
  {
  }

  lemma NoneLeftStep(valid0: seq<bool>, hot0: seq<int>, cold0: seq<int>, valid: seq<bool>, hot: seq<int>,
    cold: seq<int>, valid': seq<bool>, lo: nat, p: nat)
    requires p < |valid0| == |valid| == |valid'| && NoneLeft(valid0, valid, lo, p)
    requires forall q :: 0 <= q < |valid0| && valid0[q] ==> !InFree(hot0, cold0, q)
    requires NoMoreFree(hot, cold, hot0, cold0) && NewFromFree(valid, hot, cold, valid') && !valid'[p]
    ensures NoneLeft(valid0, valid', lo, p + 1)
  {
  }

  // ---------------------------------------------------------------- what a reader sees

  /** The forward map, the valid marks and the memory: all that a read without flips looks at. */
  datatype View = View(l2p: seq<int>, valid: seq<bool>, mem: seq<Byte>)

  ghost predicate Viewable(n: nat, v: View) {
    && |v.l2p| == |v.valid| == n && |v.mem| == n * PAGE_SIZE
    && forall lp :: 0 <= lp < n ==> v.l2p[lp] < n
  }

  /** What a read without flips returns of a logical page: zeros if its page is not marked valid. */
  function VisiblePage(n: nat, v: View, lp: nat): (b: seq<Byte>)
    requires |v.l2p| == |v.valid| == n && |v.mem| == n * PAGE_SIZE && lp < n && v.l2p[lp] < n
    ensures |b| == PAGE_SIZE
  {
    if v.l2p[lp] < 0 || !v.valid[v.l2p[lp]] then ZeroPage() else PageOf(n, v.mem, v.l2p[lp])
  }

  ghost predicate SameSeen(n: nat, before: View, after: View) {
    && Viewable(n, before) && Viewable(n, after)
    && forall x: nat :: x < n ==> VisiblePage(n, after, x) == VisiblePage(n, before, x)
  }

  /** After the write every page is seen as it should be. */
  ghost predicate SeenRight(n: nat, before: View, after: View, lp: nat, at: nat, data: seq<Byte>) {
    && Viewable(n, before) && Viewable(n, after) && lp < n && at + |data| <= PAGE_SIZE
    && forall x: nat :: x < n ==>
         VisiblePage(n, after, x)
         == if x == lp then Splice(VisiblePage(n, before, lp), at, data) else VisiblePage(n, before, x)
  }

  /** The page handed out belonged to o, but what o must now be seen as is what it is seen as. */
  ghost predicate Lucky(n: nat, before: View, o: int, lp: nat, at: nat, data: seq<Byte>) {
    && Viewable(n, before) && lp < n && at + |data| <= PAGE_SIZE && 0 <= o < n
    && Splice(VisiblePage(n, before, lp), at, data) == if o == lp then ZeroPage() else VisiblePage(n, before, o)
  }

  /** Writing a page of lp into the physical page p, whatever p holds: all is seen as it should be exactly if p held
      nothing. If it was another logical page's, that one is now seen as the new page of lp; if it was lp's own, it
      ends up marked invalid and lp is seen as zeros. Only contents that happen to agree hide either. */
  lemma SeenRightExactly(n: nat, owner: seq<int>, before: View, ecc0: seq<Check>, mem: seq<Byte>, ecc: seq<Check>,
    lp: nat, p: nat, at: nat, data: seq<Byte>)
    requires Viewable(n, before) && Agree(n, before.l2p, before.valid, owner)
    requires |mem| == n * PAGE_SIZE && |ecc0| == |ecc| == n * CHUNKS
    requires lp < n && p < n && at + |data| <= PAGE_SIZE && OthersSame(before.mem, ecc0, mem, ecc, n, p)
    requires PageOf(n, mem, p) == Splice(LogicalPage(n, before.l2p, before.mem, lp), at, data)
    ensures var after := View(before.l2p[lp := p], ValidAfter(before.valid, p, before.l2p[lp]), mem);
            SeenRight(n, before, after, lp, at, data) <==>
              !before.valid[p] || Lucky(n, before, owner[p], lp, at, data)
  {
    hide PageOf;
    hide Splice;
    var after := View(before.l2p[lp := p], ValidAfter(before.valid, p, before.l2p[lp]), mem);
    var o := owner[p];
    assert LogicalPage(n, before.l2p, before.mem, lp) == VisiblePage(n, before, lp);
    forall x: nat | x < n && x != lp && !(before.valid[p] && x == o)
      ensures VisiblePage(n, after, x) == VisiblePage(n, before, x)
    {
      if before.l2p[x] >= 0 {
        PageSame(n, before.mem, ecc0, mem, ecc, p, before.l2p[x]);
      }
    }
    if before.valid[p] && o == lp {
      assert VisiblePage(n, after, lp) == ZeroPage();
    } else {
      assert VisiblePage(n, after, lp) == PageOf(n, mem, p);
      if before.valid[p] {
        assert VisiblePage(n, after, o) == PageOf(n, mem, p);
      }
    }
  }

  /** What is seen rightly after a view that looks the same is seen rightly after the first. */
  lemma SeenAlike(n: nat, first: View, before: View, after: View, o: int, lp: nat, at: nat, data: seq<Byte>)
    requires SameSeen(n, first, before)
    ensures SeenRight(n, first, after, lp, at, data) <==> SeenRight(n, before, after, lp, at, data)
    ensures Lucky(n, first, o, lp, at, data) <==> Lucky(n, before, o, lp, at, data)
  {
    hide VisiblePage;
    hide Splice;
  }

  /** While the maps agree, what is seen is what is stored. */
  lemma AgreeingSeen(n: nat, a: Image, validA: seq<bool>, ownerA: seq<int>, b: Image, validB: seq<bool>,
    ownerB: seq<int>)
    requires SameLogical(n, a, b) && Agree(n, a.l2p, validA, ownerA) && Agree(n, b.l2p, validB, ownerB)
    ensures SameSeen(n, View(a.l2p, validA, a.mem), View(b.l2p, validB, b.mem))
  {
    hide PageOf;
    hide ChecksOf;
    forall x: nat | x < n
      ensures VisiblePage(n, View(b.l2p, validB, b.mem), x) == VisiblePage(n, View(a.l2p, validA, a.mem), x)
    {
      assert SameAt(n, a, b, x);
    }
  }

  lemma PageSame(n: nat, mem0: seq<Byte>, ecc0: seq<Check>, mem: seq<Byte>, ecc: seq<Check>, p: nat, q: nat)
    requires |mem0| == |mem| == n * PAGE_SIZE && |ecc0| == |ecc| == n * CHUNKS && p < n && q < n && q != p
    requires OthersSame(mem0, ecc0, mem, ecc, n, p)
    ensures PageOf(n, mem, q) == PageOf(n, mem0, q)
  {
    assert SamePage(mem0, ecc0, mem, ecc, q);
  }

  // ---------------------------------------------------------------- wear

  /** Before any block has been erased no page has been written twice, and no free page at all. */
  ghost predicate Unworn(n: nat, hot: seq<int>, cold: seq<int>, writes: seq<nat>, disturbs: seq<nat>) {
    && |writes| == n && |disturbs| == n
    && (forall p :: 0 <= p < n ==> writes[p] <= 1)
    && (forall p :: 0 <= p < n && InFree(hot, cold, p) ==> writes[p] == 0)
    && (forall p :: 0 <= p < n ==> disturbs[(p + 1) % n] == if n > 1 then writes[p] else 0)
  }

  lemma StartsUnworn(n: nat, hot: seq<int>, cold: seq<int>, writes: seq<nat>, disturbs: seq<nat>)
    requires |writes| == n && |disturbs| == n && forall p :: 0 <= p < n ==> writes[p] == disturbs[p] == 0
    ensures Unworn(n, hot, cold, writes, disturbs)
  {
  }

  /** Each page's disturb count is its predecessor's write count, so it too is at most one. */
  lemma UnwornDisturbs(n: nat, hot: seq<int>, cold: seq<int>, writes: seq<nat>, disturbs: seq<nat>, p: nat)
    requires Unworn(n, hot, cold, writes, disturbs) && p < n
    ensures writes[p] <= 1 && disturbs[p] <= 1
  {
    var q := if p == 0 then n - 1 else p - 1;
    assert (q + 1) % n == p;
    assert disturbs[(q + 1) % n] == if n > 1 then writes[q] else 0;
  }

  /** The counters after page p is programmed: its neighbour's goes up, if it has one. */
  function Disturbed(disturbs: seq<nat>, p: nat): (d: seq<nat>)
    requires p < |disturbs|
    ensures |d| == |disturbs|
    ensures p + 1 < |d| ==> d == disturbs[p + 1 := disturbs[p + 1] + 1]
    ensures p + 1 == |d| > 1 ==> d == disturbs[0 := disturbs[0] + 1]
  {
    var next := (p + 1) % |disturbs|;
    if |disturbs| > 1 then disturbs[next := disturbs[next] + 1] else disturbs
  }

  /** Taking a free page, programming it once and disturbing its neighbour keeps the pages unworn. */
  lemma UnwornStep(n: nat, hot: seq<int>, cold: seq<int>, hot': seq<int>, cold': seq<int>,
    writes: seq<nat>, disturbs: seq<nat>, p: nat)
    requires Unworn(n, hot, cold, writes, disturbs) && p < n && InFree(hot, cold, p) && !InFree(hot', cold', p)
    requires forall x :: InFree(hot', cold', x) ==> InFree(hot, cold, x)
    ensures Unworn(n, hot', cold', writes[p := writes[p] + 1], Disturbed(disturbs, p))
  {
    var d := Disturbed(disturbs, p);
    var w := writes[p := writes[p] + 1];
    forall q | 0 <= q < n ensures d[(q + 1) % n] == if n > 1 then w[q] else 0 {
      NextInjective(n, p, q);
    }
  }

  lemma NextInjective(n: nat, p: nat, q: nat)
    requires p < n && q < n
    ensures (p + 1) % n == (q + 1) % n <==> p == q
  {
  }

  // ---------------------------------------------------------------- the victim's score

  /** A counter read as a signed 32-bit number. */
  function AsInt32(x: nat): int {
    if x >= 0x8000_0000 then x - 0x1_0000_0000 else x
  }

  function HotScore(owner: seq<int>, counters: seq<nat>, lo: nat, hi: nat): int
    requires lo <= hi <= |owner|
    decreases hi - lo
  {
    if lo == hi then 0
    else HotScore(owner, counters, lo, hi - 1)
           + if 0 <= owner[hi - 1] < |counters| then AsInt32(counters[owner[hi - 1]]) else 0
  }

  /** Heats of at most h, read as numbers, never score below zero or above h a page. */
  lemma {:induction false} HotScoreBound(owner: seq<int>, heat: seq<nat>, lo: nat, hi: nat, h: nat)
    requires lo <= hi <= |owner| && h < 0x8000_0000 && forall x :: 0 <= x < |heat| ==> heat[x] <= h
    ensures 0 <= HotScore(owner, heat, lo, hi) <= (hi - lo) * h
    decreases hi - lo
  {
    if lo < hi {
      HotScoreBound(owner, heat, lo, hi - 1, h);
      assert (hi - lo) * h == (hi - 1 - lo) * h + h;
    }
  }

  /** Zeroing a block's counter keeps all counters below the true counts. */
  lemma CounterZero(n: nat, valid: seq<bool>, blockValid: seq<int>, b: nat)
    requires |valid| == n && CountersBelow(n, valid, blockValid) && b < |blockValid|
    ensures CountersBelow(n, valid, blockValid[b := 0])
  {
  }

  /** How many pages an access touches. */
  function Segments(offset: nat, size: nat): nat {
    if size == 0 then 0 else (offset + size - 1) / PAGE_SIZE - offset / PAGE_SIZE + 1
  }

  lemma FirstSegment(offset: nat, size: nat)
    requires size > 0
    ensures var room := PAGE_SIZE - offset % PAGE_SIZE;
            var len := if size < room then size else room;
            && offset / PAGE_SIZE * PAGE_SIZE + offset % PAGE_SIZE == offset
            && Segments(offset, size) == 1 + Segments(offset + len, size - len)
  {
  }

  lemma NoSegments(offset: nat)
    ensures Segments(offset, 0) == 0
  {
  }

  lemma SpliceNothing(f: seq<Byte>, at: nat, src: seq<Byte>)
    requires at + |src| <= |f|
    ensures Splice(f, at, src[..0]) == f
  {
  }

  lemma SpliceNone(f: seq<Byte>)
    ensures Splice(f, 0, []) == f
  {
  }

  /** Splicing the next part after a prefix splices the longer prefix. */
  lemma SpliceNext(f: seq<Byte>, at: nat, src: seq<Byte>, lo: nat, hi: nat)
    requires lo <= hi <= |src| && at + |src| <= |f|
    ensures Splice(Splice(f, at, src[..lo]), at + lo, src[lo..hi]) == Splice(f, at, src[..hi])
  {
  }

  /** A byte index lies in a range within one page exactly when its page and offset do. */
  lemma SplitIndex(i: nat, x: nat, o: nat, lp: nat, at: nat, len: nat)
    requires x == i / PAGE_SIZE && o == i % PAGE_SIZE && at + len <= PAGE_SIZE
    ensures i == x * PAGE_SIZE + o
    ensures lp * PAGE_SIZE + at <= i < lp * PAGE_SIZE + at + len <==> x == lp && at <= o < at + len
  {
  }
}
