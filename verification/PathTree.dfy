/** Facts about a set of stored paths in which every path's parent is stored too. */
module PathTree {
  import opened NameOrder

  /** The parent of a path; the root is its own parent, as in the path library. */
  function Parent(p: Path): Path {
    if p == [] then [] else p[..|p| - 1]
  }

  ghost predicate ParentsStored(keys: set<Path>) {
    && [] in keys
    && forall p :: p in keys ==> Parent(p) in keys
  }

  /** c lies directly in dir. */
  predicate IsChild(c: Path, dir: Path) {
    c != [] && Parent(c) == dir
  }

  /** What the map's upper bound returns: the first stored path after p. */
  ghost predicate IsUpperBound(keys: set<Path>, p: Path, next: Option<Path>) {
    match next
    case None => forall k :: k in keys ==> !Less(p, k)
    case Some(n) => n in keys && Less(p, n) && forall k :: k in keys && Less(p, k) ==> AtMost(n, k)
  }

  datatype Option<T> = None | Some(value: T)

  ghost predicate Sorted(s: seq<Path>) {
    forall i, j :: 0 <= i < j < |s| ==> Less(s[i], s[j])
  }

  /** s lists the set in the map's order, each path once. */
  ghost predicate Lists(s: seq<Path>, keys: set<Path>) {
    Sorted(s) && forall p :: p in s <==> p in keys
  }

  lemma {:induction false} AncestorStored(keys: set<Path>, p: Path, k: nat)
    requires ParentsStored(keys) && p in keys && k <= |p|
    ensures p[..k] in keys
    decreases |p|
  {
    if k < |p| {
      AncestorStored(keys, Parent(p), k);
      assert Parent(p)[..k] == p[..k];
    } else {
      assert p[..k] == p;
    }
  }

  /** If anything is stored below dir, the first stored path after dir is a child of dir. */
  lemma FirstAfterIsChild(keys: set<Path>, dir: Path, below: Path, next: Path)
    requires ParentsStored(keys) && below in keys && dir < below
    requires IsUpperBound(keys, dir, Some(next))
    ensures IsChild(next, dir)
  {
    DirectoryFirst(dir, below);
    SubtreeContiguous(dir, next, below);
    ListOrder(dir, next);
    assert dir < next;
    var child := next[..|dir| + 1];
    AncestorStored(keys, next, |dir| + 1);
    DirectoryFirst(dir, child);
    if child != next {
      DirectoryFirst(child, next);
      StrictTotalOrder(child, next, child);
      assert false;
    }
  }

  /** Everything stored from dir to anything below dir is below dir, so a walk that starts at dir
      may stop at the first path outside. */
  lemma OutsideStaysOutside(dir: Path, x: Path, y: Path)
    requires Less(dir, x) && !(dir <= x) && Less(x, y)
    ensures !(dir <= y)
  {
    if dir <= y {
      SubtreeContiguous(dir, x, y);
    }
  }

  /** k comes before the iterator; the end comes after everything. */
  predicate Before(k: Path, iter: Option<Path>) {
    iter.None? || Less(k, iter.value)
  }

  /** Advancing an iterator passes exactly the element it stood on. */
  lemma NextPassesOne(keys: set<Path>, at: Path, next: Option<Path>, k: Path)
    requires IsUpperBound(keys, at, next) && k in keys
    ensures Before(k, next) <==> k == at || Less(k, at)
  {
    StrictTotalOrder(k, at, k);
    if next.Some? {
      StrictTotalOrder(k, at, next.value);
      StrictTotalOrder(k, next.value, k);
    }
  }

  lemma NextPasses(keys: set<Path>, at: Path, next: Option<Path>)
    requires IsUpperBound(keys, at, next)
    ensures !Less(at, at) && forall k :: k in keys ==> (Before(k, next) <==> k == at || Less(k, at))
  {
    StrictTotalOrder(at, at, at);
    forall k | k in keys ensures Before(k, next) <==> k == at || Less(k, at) {
      NextPassesOne(keys, at, next, k);
    }
  }

  /** Once the walk has left the subtree of dir, nothing of the subtree is still to come. */
  lemma SubtreeEnds(keys: set<Path>, dir: Path, at: Path)
    requires Less(dir, at) && !(dir <= at)
    ensures forall c :: c in keys && dir <= c ==> Less(c, at)
  {
    forall c | c in keys && dir <= c ensures Less(c, at) {
      StrictTotalOrder(c, at, c);
      if Less(at, c) {
        OutsideStaysOutside(dir, at, c);
      }
    }
  }

  lemma SortedSnoc(s: seq<Path>, p: Path)
    requires Sorted(s) && forall x :: x in s ==> Less(x, p)
    ensures Sorted(s + [p])
  {
  }

  lemma SortedDistinct(s: seq<Path>, i: nat, j: nat)
    requires Sorted(s) && i < |s| && j < |s| && s[i] == s[j]
    ensures i == j
  {
    StrictTotalOrder(s[i], s[i], s[i]);
  }

  lemma AppendPage(all: seq<Path>, page: seq<Path>, start: Path)
    requires Sorted(all) && Sorted(page)
    requires (forall c :: c in all ==> AtMost(c, start)) && (forall c :: c in page ==> Less(start, c))
    ensures Sorted(all + page)
  {
    var s := all + page;
    forall i, j | 0 <= i < j < |s| ensures Less(s[i], s[j]) {
      if i < |all| <= j {
        assert all[i] in all && page[j - |all|] in page;
        StrictTotalOrder(s[i], start, s[j]);
      }
    }
  }

  /** Everything on a page is at most its last entry, and after the start. */
  lemma ResumeAfter(page: seq<Path>, start: Path, last: Path)
    requires Sorted(page) && page != [] && last == page[|page| - 1]
    requires forall c :: c in page ==> Less(start, c)
    ensures Less(start, last)
    ensures forall c :: c in page ==> AtMost(c, last)
    ensures forall c :: Less(last, c) ==> Less(start, c)
  {
    assert last in page;
    forall c | Less(last, c) ensures Less(start, c) {
      StrictTotalOrder(start, last, c);
    }
  }

  // ---------------------------------------------------------------- moving a subtree

  /** The path p below from, moved to the same place below to. */
  function Moved(p: Path, from: Path, to: Path): (r: Path)
    requires from <= p
    ensures to <= r
  {
    to + p[|from|..]
  }

  lemma MovedBack(p: Path, from: Path, to: Path)
    requires from <= p
    ensures Moved(Moved(p, from, to), to, from) == p
  {
  }

  /** Neither path lies inside the other, unless they are the same. */
  predicate Apart(from: Path, to: Path) {
    from == to || (!(from <= to) && !(to <= from))
  }

  lemma ApartSubtrees(from: Path, to: Path, p: Path)
    requires Apart(from, to) && from <= p && to <= p
    ensures from == to
  {
  }

  /** m is m0 without what was stored at to, and with everything at or below from moved to to. */
  ghost predicate IsRenamed<V>(m0: map<Path, V>, m: map<Path, V>, from: Path, to: Path) {
    && (forall p :: p in m0 && !(from <= p) && p != to ==> p in m && m[p] == m0[p])
    && (forall q :: q in m0 && from <= q ==> Moved(q, from, to) in m && m[Moved(q, from, to)] == m0[q])
    && (forall p :: p in m ==>
          (p in m0 && !(from <= p) && p != to) || (to <= p && Moved(p, to, from) in m0))
  }

  /** Nothing is stored strictly below the target, unless the subtree is renamed onto itself. */
  ghost predicate TargetFree<V>(m0: map<Path, V>, from: Path, to: Path) {
    from == to || forall p :: p in m0 && to <= p ==> p == to
  }

  ghost predicate InSubtree<V>(m0: map<Path, V>, names: seq<Path>, from: Path) {
    forall j :: 0 <= j < |names| ==> names[j] in m0 && from <= names[j]
  }

  ghost predicate Kept<V>(m0: map<Path, V>, m: map<Path, V>, from: Path, to: Path) {
    forall p :: p in m0 && !(from <= p) && p != to ==> p in m && m[p] == m0[p]
  }

  ghost predicate Pending<V>(m0: map<Path, V>, m: map<Path, V>, names: seq<Path>, i: nat, from: Path, to: Path)
    requires InSubtree(m0, names, from)
  {
    forall j :: i <= j < |names| && names[j] != to ==> names[j] in m && m[names[j]] == m0[names[j]]
  }

  ghost predicate Done<V>(m0: map<Path, V>, m: map<Path, V>, names: seq<Path>, i: nat, from: Path, to: Path)
    requires i <= |names| && InSubtree(m0, names, from)
  {
    forall j :: 0 <= j < i ==> Moved(names[j], from, to) in m && m[Moved(names[j], from, to)] == m0[names[j]]
  }

  ghost predicate NothingElse<V>(m0: map<Path, V>, m: map<Path, V>, names: seq<Path>, i: nat, from: Path, to: Path)
    requires i <= |names|
  {
    forall p :: p in m ==>
      || (p in m0 && !(from <= p) && p != to)
      || (p in names[i..] && p != to)
      || (to <= p && Moved(p, to, from) in names[..i])
  }

  /** After i of the subtree's names have been moved. */
  ghost predicate Midway<V>(m0: map<Path, V>, m: map<Path, V>, names: seq<Path>, i: nat, from: Path, to: Path)
    requires i <= |names| && InSubtree(m0, names, from)
  {
    && Kept(m0, m, from, to) && Pending(m0, m, names, i, from, to)
    && Done(m0, m, names, i, from, to) && NothingElse(m0, m, names, i, from, to)
  }

  lemma MidwayStart<V>(m0: map<Path, V>, names: seq<Path>, from: Path, to: Path)
    requires Lists(names, set p | p in m0 && from <= p)
    ensures InSubtree(m0, names, from)
    ensures Midway(m0, m0 - {to}, names, 0, from, to)
  {
    assert names[0..] == names;
    assert forall j :: 0 <= j < |names| ==> names[j] in names;
  }

  /** The next name is in the map under its old value, or is the vacated target; its new name is free. */
  lemma NextToMove<V>(m0: map<Path, V>, m: map<Path, V>, names: seq<Path>, i: nat, from: Path, to: Path)
    requires Sorted(names) && i < |names| && InSubtree(m0, names, from)
    requires Apart(from, to) && TargetFree(m0, from, to) && Midway(m0, m, names, i, from, to)
    ensures names[i] in m ==> m[names[i]] == m0[names[i]]
    ensures Moved(names[i], from, to) !in m - {names[i]}
  {
    var d := names[i];
    var newp := Moved(d, from, to);
    if d in m && to <= d && Moved(d, to, from) in names[..i] {
      ApartSubtrees(from, to, d);
      assert Moved(d, to, from) == d;
      NotYet(names, i);
    }
    if newp in m - {d} {
      MovedBack(d, from, to);
      NotYet(names, i);
    }
  }

  lemma NotYet(names: seq<Path>, i: nat)
    requires Sorted(names) && i < |names|
    ensures names[i] !in names[..i] && names[i] !in names[i + 1..]
  {
    if names[i] in names[..i] {
      var j :| 0 <= j < i && names[j] == names[i];
      SortedDistinct(names, i, j);
    }
    if names[i] in names[i + 1..] {
      var j :| i + 1 <= j < |names| && names[j] == names[i];
      SortedDistinct(names, i, j);
    }
  }

  /** The map after the next name has been moved. */
  function MoveNext<V>(m0: map<Path, V>, m: map<Path, V>, names: seq<Path>, i: nat, from: Path, to: Path): map<Path, V>
    requires i < |names| && InSubtree(m0, names, from)
  {
    (m - {names[i]})[Moved(names[i], from, to) := m0[names[i]]]
  }

  lemma MidwayStep<V>(m0: map<Path, V>, m: map<Path, V>, names: seq<Path>, i: nat, from: Path, to: Path)
    requires Sorted(names) && i < |names| && InSubtree(m0, names, from)
    requires Apart(from, to) && TargetFree(m0, from, to) && Midway(m0, m, names, i, from, to)
    ensures Midway(m0, MoveNext(m0, m, names, i, from, to), names, i + 1, from, to)
  {
    StepDone(m0, m, names, i, from, to);
    StepNothingElse(m0, m, names, i, from, to);
    StepKept(m0, m, names, i, from, to);
    StepPending(m0, m, names, i, from, to);
    hide *;
    ComposeMidway(m0, MoveNext(m0, m, names, i, from, to), names, i + 1, from, to);
  }

  lemma ComposeMidway<V>(m0: map<Path, V>, m: map<Path, V>, names: seq<Path>, i: nat, from: Path, to: Path)
    requires i <= |names| && InSubtree(m0, names, from)
    requires Kept(m0, m, from, to) && Pending(m0, m, names, i, from, to)
    requires Done(m0, m, names, i, from, to) && NothingElse(m0, m, names, i, from, to)
    ensures Midway(m0, m, names, i, from, to)
  {
  }

  lemma StepKept<V>(m0: map<Path, V>, m: map<Path, V>, names: seq<Path>, i: nat, from: Path, to: Path)
    requires Sorted(names) && i < |names| && InSubtree(m0, names, from)
    requires Apart(from, to) && TargetFree(m0, from, to) && Midway(m0, m, names, i, from, to)
    ensures Kept(m0, MoveNext(m0, m, names, i, from, to), from, to)
  {
  }

  lemma StepPending<V>(m0: map<Path, V>, m: map<Path, V>, names: seq<Path>, i: nat, from: Path, to: Path)
    requires Sorted(names) && i < |names| && InSubtree(m0, names, from)
    requires Apart(from, to) && TargetFree(m0, from, to) && Midway(m0, m, names, i, from, to)
    ensures Pending(m0, MoveNext(m0, m, names, i, from, to), names, i + 1, from, to)
  {
    NextToMove(m0, m, names, i, from, to);
    NotYet(names, i);
    forall j | i + 1 <= j < |names| && names[j] != to
      ensures names[j] in m - {names[i]}
    {
      assert names[j] in names[i + 1..];
    }
  }

  lemma StepDone<V>(m0: map<Path, V>, m: map<Path, V>, names: seq<Path>, i: nat, from: Path, to: Path)
    requires Sorted(names) && i < |names| && InSubtree(m0, names, from)
    requires Apart(from, to) && TargetFree(m0, from, to) && Midway(m0, m, names, i, from, to)
    ensures Done(m0, MoveNext(m0, m, names, i, from, to), names, i + 1, from, to)
  {
    NotYet(names, i);
    forall j | 0 <= j < i
      ensures Moved(names[j], from, to) in m - {names[i]}
      ensures Moved(names[j], from, to) != Moved(names[i], from, to)
    {
      var q := Moved(names[j], from, to);
      MovedBack(names[j], from, to);
      MovedBack(names[i], from, to);
      assert names[j] in names[..i];
      if q == names[i] {
        ApartSubtrees(from, to, q);
      }
    }
  }

  lemma StepNothingElse<V>(m0: map<Path, V>, m: map<Path, V>, names: seq<Path>, i: nat, from: Path, to: Path)
    requires i < |names| && InSubtree(m0, names, from) && NothingElse(m0, m, names, i, from, to)
    ensures NothingElse(m0, MoveNext(m0, m, names, i, from, to), names, i + 1, from, to)
  {
    MovedBack(names[i], from, to);
    assert names[i..] == [names[i]] + names[i + 1..];
    assert names[..i + 1] == names[..i] + [names[i]];
  }

  lemma MidwayEnd<V>(m0: map<Path, V>, m: map<Path, V>, names: seq<Path>, from: Path, to: Path)
    requires Lists(names, set p | p in m0 && from <= p)
    requires InSubtree(m0, names, from) && Midway(m0, m, names, |names|, from, to)
    ensures IsRenamed(m0, m, from, to)
  {
    assert names[..|names|] == names;
    forall q | q in m0 && from <= q
      ensures Moved(q, from, to) in m && m[Moved(q, from, to)] == m0[q]
    {
      assert q in names;
      var j :| 0 <= j < |names| && names[j] == q;
    }
  }

  /** The parent of a moved path is the moved parent, or the target's own parent. */
  lemma MovedParent(p: Path, from: Path, to: Path)
    requires from <= p && from != [] && to != []
    ensures p == from ==> Parent(Moved(p, from, to)) == Parent(to)
    ensures p != from ==> from <= Parent(p) && Parent(Moved(p, from, to)) == Moved(Parent(p), from, to)
  {
  }
}
