/** The name space of the in-memory file system: a sorted map from names to reference-counted
    nodes. The heap is the map from node ids to nodes, so freeing a node is visible. */
module Memfs {
  import opened NameOrder
  import opened PathTree

  const MAX_PATH: nat := 512

  type NodeId = nat

  datatype Node = Node(name: Path, directory: bool, refCount: int)

  datatype Status =
    | Success
    | ObjectNameInvalid
    | ObjectNameCollision
    | ObjectNameNotFound
    | ObjectPathNotFound
    | NotADirectory
    | CannotMake
    | DiskFull
    | AccessDenied

  type Index = map<Path, NodeId>
  type Heap = map<NodeId, Node>
  type Counts = map<NodeId, nat>

  /** The map's entry under the node's name is the node. */
  ghost predicate Linked(index: Index, nodes: Heap, id: NodeId) {
    id in nodes && nodes[id].name in index && index[nodes[id].name] == id
  }

  /** Keys are the nodes' own names; a node's count is its outstanding references, plus one if linked. */
  ghost predicate Sums(index: Index, nodes: Heap, refs: Counts) {
    && (forall p :: p in index ==> index[p] in nodes && nodes[index[p]].name == p)
    && nodes.Keys == refs.Keys
    && (forall id :: id in nodes ==>
          nodes[id].refCount == refs[id] + if Linked(index, nodes, id) then 1 else 0)
  }

  /** A node exists only while it is linked or referenced. */
  ghost predicate Counted(index: Index, nodes: Heap, refs: Counts) {
    Sums(index, nodes, refs) && forall id :: id in nodes ==> nodes[id].refCount > 0
  }

  /** Every name but the root has its parent stored as a directory, and names fit the buffer. */
  ghost predicate IsTree(index: Index, nodes: Heap) {
    && (forall p :: p in index ==> index[p] in nodes)
    && ParentsStored(index.Keys)
    && (forall p :: p in index && p != [] ==> nodes[index[Parent(p)]].directory)
    && (forall p :: p in index ==> |NameOf(p)| < MAX_PATH)
  }

  lemma TreeFacts(index: Index, nodes: Heap)
    requires IsTree(index, nodes)
    ensures ParentsStored(index.Keys)
    ensures forall p :: p in index ==> index[p] in nodes
  {
  }

  /** The tree shape depends on the map and on which nodes are directories only. */
  lemma SameTree(index: Index, before: Heap, after: Heap)
    requires IsTree(index, before)
    requires forall p :: p in index ==>
               index[p] in after && after[index[p]].directory == before[index[p]].directory
    ensures IsTree(index, after)
  {
    hide NameOf;
  }

  /** A childless name can leave the tree. */
  lemma PrunedTree(index: Index, nodes: Heap, name: Path)
    requires IsTree(index, nodes) && name != []
    requires forall c :: c in index ==> !IsChild(c, name)
    ensures IsTree(index - {name}, nodes)
  {
  }

  /** A new name below a stored directory extends the tree. */
  lemma GrownTree(index: Index, nodes: Heap, name: Path, id: NodeId)
    requires IsTree(index, nodes) && id in nodes && name !in index && |NameOf(name)| < MAX_PATH
    requires Parent(name) in index && nodes[index[Parent(name)]].directory
    ensures IsTree(index[name := id], nodes)
  {
  }

  /** Erasing a linked node's entry while a reference is taken in its place. */
  lemma Unlinked(index: Index, nodes: Heap, refs: Counts, id: NodeId)
    requires Counted(index, nodes, refs) && Linked(index, nodes, id)
    ensures Counted(index - {nodes[id].name}, nodes, refs[id := refs[id] + 1])
    ensures !Linked(index - {nodes[id].name}, nodes, id)
  {
  }

  /** The heap after one reference to a node is dropped: the node goes with the last. */
  function Released(nodes: Heap, id: NodeId): (after: Heap)
    requires id in nodes
  {
    if nodes[id].refCount - 1 == 0 then nodes - {id}
    else nodes[id := nodes[id].(refCount := nodes[id].refCount - 1)]
  }

  lemma ReleasedCounted(index: Index, nodes: Heap, refs: Counts, id: NodeId)
    requires Counted(index, nodes, refs) && id in refs && refs[id] > 0
    ensures id in nodes && (id in Released(nodes, id) <==> Linked(index, nodes, id) || refs[id] > 1)
    ensures Counted(index, Released(nodes, id),
              if id in Released(nodes, id) then refs[id := refs[id] - 1] else refs - {id})
  {
    if nodes[id].refCount == 1 {
      assert forall p :: p in index ==> index[p] != id;
    }
  }

  lemma NowCounted(index: Index, nodes: Heap, refs: Counts)
    requires Sums(index, nodes, refs) && forall id :: id in nodes ==> nodes[id].refCount > 0
    ensures Counted(index, nodes, refs)
  {
  }

  /** An unlinked node is under no name. */
  lemma MapHoldsLinked(index: Index, nodes: Heap, refs: Counts, id: NodeId)
    requires Counted(index, nodes, refs)
    ensures Linked(index, nodes, id) || forall p :: p in index ==> index[p] != id
    ensures id in nodes && !Linked(index, nodes, id) ==> refs[id] > 0
    ensures nodes.Keys == refs.Keys
  {
  }

  /** A new node with no references yet. */
  lemma Allocated(index: Index, nodes: Heap, refs: Counts, id: NodeId, node: Node)
    requires Counted(index, nodes, refs) && id !in nodes && node.refCount == 0 && node.name !in index
    ensures Sums(index, nodes[id := node], refs[id := 0]) && !Linked(index, nodes[id := node], id)
    ensures forall x :: x in nodes ==> nodes[x].refCount > 0
  {
  }

  /** A node that is under no name may change its name to another that no node is under. */
  lemma NameChanged(index: Index, nodes: Heap, refs: Counts, id: NodeId, name: Path)
    requires Counted(index, nodes, refs) && id in nodes
    requires nodes[id].name !in index && name !in index
    ensures Counted(index, nodes[id := nodes[id].(name := name)], refs)
    ensures !Linked(index, nodes[id := nodes[id].(name := name)], id)
  {
  }

  lemma CountedIsSums(index: Index, nodes: Heap, refs: Counts)
    requires Counted(index, nodes, refs)
    ensures Sums(index, nodes, refs) && forall id :: id in nodes ==> nodes[id].refCount > 0
  {
  }

  /** Equal maps, references, names and directory bits leave no room for different counts. */
  lemma CountsDetermined(index: Index, before: Heap, after: Heap, refs: Counts)
    requires Counted(index, before, refs) && Counted(index, after, refs) && SameNodes(before, after)
    ensures before == after
  {
  }

  /** The moved subtree hangs below a stored directory again, and everything else stays where it was. */
  lemma RenamedTree(m0: Index, before: Heap, m: Index, after: Heap, from: Path, to: Path)
    requires IsTree(m0, before) && IsRenamed(m0, m, from, to)
    requires from != [] && to != [] && Apart(from, to) && TargetFree(m0, from, to)
    requires Parent(to) in m0 && before[m0[Parent(to)]].directory
    requires forall p :: p in m0 && from <= p ==> |NameOf(Moved(p, from, to))| < MAX_PATH
    requires forall p :: p in m ==> m[p] in before && m[p] in after
                                    && after[m[p]].directory == before[m[p]].directory
    ensures IsTree(m, after)
  {
    hide NameOf;
    forall p | p in m
      ensures Parent(p) in m && |NameOf(p)| < MAX_PATH && (p != [] ==> after[m[Parent(p)]].directory)
    {
      if p in m0 && !(from <= p) && p != to {
        StayingParent(m0, before, m, from, to, p);
      } else {
        var q := Moved(p, to, from);
        MovedBack(p, to, from);
        MovedParent(q, from, to);
        assert Parent(q) in m0.Keys;
        if q == from {
          TargetParent(m0, m, from, to);
        }
      }
    }
    StayingRoot(m0, m, from, to);
  }

  lemma StayingRoot(m0: Index, m: Index, from: Path, to: Path)
    requires [] in m0 && IsRenamed(m0, m, from, to) && from != [] && to != []
    ensures [] in m
  {
  }

  /** The parent of a name outside the subtree stays. */
  lemma StayingParent(m0: Index, before: Heap, m: Index, from: Path, to: Path, p: Path)
    requires IsTree(m0, before) && IsRenamed(m0, m, from, to) && TargetFree(m0, from, to)
    requires from != [] && to != [] && p in m0 && !(from <= p) && p != to
    ensures Parent(p) in m && m[Parent(p)] == m0[Parent(p)]
  {
    assert Parent(p) in m0.Keys;
    assert from <= Parent(p) ==> from <= p;
    assert Parent(p) == to ==> to <= p;
  }

  lemma TargetParent(m0: Index, m: Index, from: Path, to: Path)
    requires IsRenamed(m0, m, from, to) && Apart(from, to) && to != [] && from != [] && Parent(to) in m0
    ensures Parent(to) in m && m[Parent(to)] == m0[Parent(to)]
  {
  }

  /** A target that passed the checks is apart from the subtree, and nothing hangs below it. */
  lemma TargetPassed(index: Index, nodes: Heap, from: Path, to: Path)
    requires IsTree(index, nodes) && from in index && !(from < to)
    requires to in index && to != from ==> !nodes[index[to]].directory
    ensures Apart(from, to) && TargetFree(index, from, to)
  {
    hide NameOf;
    if from != to {
      forall p | p in index && to <= p ensures p == to {
        var child := if p == to then p else p[..|to| + 1];
        AncestorStored(index.Keys, p, |child|);
        assert child == to || Parent(child) == to;
      }
    }
  }

  /** The first i listed nodes carry their moved names, all others their old ones. */
  ghost predicate NamesMoved(before: Heap, after: Heap, list: seq<NodeId>, i: nat, from: Path, to: Path)
    requires i <= |list|
  {
    && before.Keys == after.Keys
    && (forall x :: x in list && x in before ==> from <= before[x].name)
    && (forall x :: x in before ==> after[x].directory == before[x].directory)
    && (forall x :: x in before ==>
          after[x].name == if x in list && x in list[..i] then Moved(before[x].name, from, to) else before[x].name)
  }

  lemma NamesMovedStep(before: Heap, mid: Heap, after: Heap, list: seq<NodeId>, i: nat, from: Path, to: Path)
    requires i < |list| && Distinct(list) && NamesMoved(before, mid, list, i, from, to)
    requires list[i] in before && from <= mid[list[i]].name
    requires SameNodes(mid[list[i] := mid[list[i]].(name := Moved(mid[list[i]].name, from, to))], after)
    ensures NamesMoved(before, after, list, i + 1, from, to)
  {
  }

  lemma FirstTime(list: seq<NodeId>, i: nat)
    requires Distinct(list) && i < |list|
    ensures list[i] !in list[..i]
  {
  }

  /** A rename frees no node but the replaced one, and that one exactly when nothing refers to it. */
  ghost predicate Survivors(before: Heap, after: Heap, refs: Counts, list: seq<NodeId>, target: Option<NodeId>)
    requires before.Keys == refs.Keys
  {
    && after.Keys <= before.Keys
    && forall x :: x in before ==> (x !in after <==> target == Some(x) && refs[x] == 0)
  }

  ghost predicate SurvivorsMoved(before: Heap, after: Heap, refs: Counts, refsAfter: Counts,
    list: seq<NodeId>, from: Path, to: Path, target: Option<NodeId>)
  {
    && before.Keys == refs.Keys && after.Keys == refsAfter.Keys
    && Survivors(before, after, refs, list, target)
    && (forall x :: x in list ==> x in after && from <= before[x].name)
    && (forall x :: x in after ==>
          && refsAfter[x] == refs[x] && after[x].directory == before[x].directory
          && after[x].name == if x in list then Moved(before[x].name, from, to) else before[x].name)
  }

  lemma SurvivorsCompose(before: Heap, mid: Heap, after: Heap, refs: Counts, refsAfter: Counts,
    list: seq<NodeId>, from: Path, to: Path, target: Option<NodeId>)
    requires SurvivorsMoved(before, mid, refs, refsAfter, [], from, to, target)
    requires NamesMoved(mid, after, list, |list|, from, to)
    requires forall x :: x in list ==> x in mid
    ensures SurvivorsMoved(before, after, refs, refsAfter, list, from, to, target)
  {
    hide Moved;
    assert list[..|list|] == list;
  }

  lemma FactsForTree(index: Index, nodes: Heap, refs: Counts)
    requires Counted(index, nodes, refs)
    ensures forall p :: p in index ==> index[p] in nodes && nodes[index[p]].name == p
    ensures nodes.Keys == refs.Keys
  {
  }

  /** The nodes after a rename: those of the subtree carry moved names, the replaced node is gone exactly
      when nothing refers to it, and references and directory bits are as before. */
  ghost predicate RenamedNodes(index: Index, before: Heap, refs: Counts, after: Heap, refsAfter: Counts,
    id: NodeId, to: Path)
    requires id in before && before.Keys == refs.Keys
  {
    var from := before[id].name;
    && after.Keys <= before.Keys && after.Keys == refsAfter.Keys
    && (forall x :: x in before ==>
          (x !in after <==> to in index && index[to] == x && x != id && refs[x] == 0))
    && (forall x :: x in after ==>
          && refsAfter[x] == refs[x] && after[x].directory == before[x].directory
          && after[x].name == if Linked(index, before, x) && from <= before[x].name
                              then Moved(before[x].name, from, to) else before[x].name)
  }

  lemma ComposeRenamed(index: Index, before: Heap, refs: Counts, mid: Heap, midRefs: Counts,
    after: Heap, refsAfter: Counts, list: seq<NodeId>, id: NodeId, to: Path, target: Option<NodeId>)
    requires id in before && before.Keys == refs.Keys == midRefs.Keys && after.Keys == refsAfter.Keys
    requires SameNodes(before, mid) && Linked(index, before, id) && Apart(before[id].name, to)
    requires forall p :: p in index ==> index[p] in before && before[index[p]].name == p
    requires forall x :: x in list <==> Linked(index, mid, x) && before[id].name <= mid[x].name
    requires forall x :: x in midRefs ==> midRefs[x] == refs[x] + if x in list then 1 else 0
    requires target == if to in index then Some(index[to]) else None
    requires Survivors(mid, after, midRefs, list, target)
    requires forall x :: x in after ==>
               && refsAfter[x] == midRefs[x] - (if x in list then 1 else 0)
               && after[x].directory == mid[x].directory
               && (x in list ==> before[id].name <= mid[x].name)
               && after[x].name == if x in list then Moved(mid[x].name, before[id].name, to) else mid[x].name
    ensures RenamedNodes(index, before, refs, after, refsAfter, id, to)
  {
    ReplacedGone(index, before, refs, mid, midRefs, after, list, id, to, target);
    forall x | x in after
      ensures refsAfter[x] == refs[x] && after[x].directory == before[x].directory
      ensures after[x].name == if Linked(index, before, x) && before[id].name <= before[x].name
                               then Moved(before[x].name, before[id].name, to) else before[x].name
    {
      NodeAfter(index, before, mid, list, before[id].name, x);
    }
    hide Moved;
    hide Linked;
    hide Apart;
    hide SameNodes;
  }

  /** Whether a node was collected can be read off the nodes as they were before. */
  lemma NodeAfter(index: Index, before: Heap, mid: Heap, list: seq<NodeId>, from: Path, x: NodeId)
    requires SameNodes(before, mid) && x in before
    requires forall y :: y in list <==> Linked(index, mid, y) && from <= mid[y].name
    ensures x in list <==> Linked(index, before, x) && from <= before[x].name
    ensures mid[x].name == before[x].name && mid[x].directory == before[x].directory
  {
  }

  /** The replaced node is the only one that can be gone. */
  lemma ReplacedGone(index: Index, before: Heap, refs: Counts, mid: Heap, midRefs: Counts,
    after: Heap, list: seq<NodeId>, id: NodeId, to: Path, target: Option<NodeId>)
    requires id in before && before.Keys == refs.Keys == midRefs.Keys
    requires SameNodes(before, mid) && Linked(index, before, id) && Apart(before[id].name, to)
    requires forall p :: p in index ==> index[p] in before && before[index[p]].name == p
    requires forall x :: x in list <==> Linked(index, mid, x) && before[id].name <= mid[x].name
    requires forall x :: x in midRefs ==> midRefs[x] == refs[x] + if x in list then 1 else 0
    requires target == if to in index then Some(index[to]) else None
    requires Survivors(mid, after, midRefs, list, target)
    ensures forall x :: x in before ==>
              (x !in after <==> to in index && index[to] == x && x != id && refs[x] == 0)
  {
  }

  /** Only a node other than the moved one can stand at the root, and the root is a directory. */
  lemma RootIsDirectory(index: Index, nodes: Heap, refs: Counts, id: NodeId)
    requires IsTree(index, nodes) && Counted(index, nodes, refs) && Linked(index, nodes, id) && nodes[id].name != []
    ensures nodes[id].name in index.Keys && [] in index && index[[]] != id
    ensures nodes[index[[]]].directory
  {
    hide NameOf;
    var p := nodes[id].name;
    AncestorStored(index.Keys, p, 1);
    assert Parent(p[..1]) == [];
  }

  ghost predicate Distinct(list: seq<NodeId>) {
    forall i, j :: 0 <= i < j < |list| ==> list[i] != list[j]
  }

  /** The same nodes up to their reference counts. */
  ghost predicate SameNodes(before: Heap, after: Heap) {
    && before.Keys == after.Keys
    && forall x :: x in before ==>
         after[x].name == before[x].name && after[x].directory == before[x].directory
  }

  class Memfs {
    var fileNodeMap: map<Path, NodeId>
    var nodes: map<NodeId, Node>
    var nextId: NodeId
    const maxFileNodes: nat
    const maxFileSize: nat
    /** For each node the open handles, and the references a running operation holds. */
    ghost var refs: map<NodeId, nat>

    ghost predicate Consistent()
      reads this
    {
      Counted(fileNodeMap, nodes, refs) && forall id :: id in nodes ==> id < nextId
    }

    ghost predicate Valid()
      reads this
    {
      Consistent() && IsTree(fileNodeMap, nodes)
    }

    ghost predicate InMap(id: NodeId)
      reads this
    {
      Linked(fileNodeMap, nodes, id)
    }

    /** The root node alone. */
    constructor (maxNodes: nat, maxSize: nat)
      ensures Valid()
      ensures fileNodeMap == map[[] := 0] && nodes == map[0 := Node([], true, 1)] && refs == map[0 := 0]
      ensures maxFileNodes == maxNodes && maxFileSize == maxSize
    {
      fileNodeMap := map[[] := 0];
      nodes := map[0 := Node([], true, 1)];
      nextId := 1;
      refs := map[0 := 0];
      maxFileNodes := maxNodes;
      maxFileSize := maxSize;
    }

    // -------------------------------------------------------------- references

    method Reference(id: NodeId)
      requires Consistent() && id in nodes
      modifies this`nodes, this`refs
      ensures Consistent()
      ensures nodes == old(nodes)[id := old(nodes)[id].(refCount := old(nodes)[id].refCount + 1)]
      ensures refs == old(refs)[id := old(refs)[id] + 1]
    {
      nodes := nodes[id := nodes[id].(refCount := nodes[id].refCount + 1)];
      refs := refs[id := refs[id] + 1];
    }

    /** Drops one reference; the node is freed exactly when it was the last and the node is unlinked. */
    method Dereference(id: NodeId)
      requires Consistent() && id in refs && refs[id] > 0
      modifies this`nodes, this`refs
      ensures Consistent()
      ensures id in nodes <==> old(InMap(id)) || old(refs)[id] > 1
      ensures id in nodes ==>
                && nodes == old(nodes)[id := old(nodes)[id].(refCount := old(nodes)[id].refCount - 1)]
                && refs == old(refs)[id := old(refs)[id] - 1]
      ensures id !in nodes ==> nodes == old(nodes) - {id} && refs == old(refs) - {id}
    {
      ReleasedCounted(fileNodeMap, nodes, refs, id);
      hide Counted;
      Release(id);
      refs := if id in nodes then refs[id := refs[id] - 1] else refs - {id};
    }

    /** The decrement itself. */
    method Release(id: NodeId)
      requires id in nodes
      modifies this`nodes
      ensures nodes == Released(old(nodes), id)
    {
      var node := nodes[id];
      if node.refCount - 1 == 0 {
        nodes := nodes - {id};
      } else {
        nodes := nodes[id := node.(refCount := node.refCount - 1)];
      }
    }

    // -------------------------------------------------------------- the map

    function MapGet(name: Path): (r: Option<NodeId>)
      reads this
    {
      if name in fileNodeMap then Some(fileNodeMap[name]) else None
    }

    /** Whether a name's parent is stored as a directory, or why not. */
    function MapGetParent(name: Path): (r: Status)
      requires forall p :: p in fileNodeMap ==> fileNodeMap[p] in nodes
      reads this
    {
      if Parent(name) !in fileNodeMap then ObjectPathNotFound
      else if !nodes[fileNodeMap[Parent(name)]].directory then NotADirectory
      else Success
    }

    method MapInsert(id: NodeId) returns (inserted: bool)
      requires Sums(fileNodeMap, nodes, refs) && id in nodes && !InMap(id)
      modifies this`nodes, this`fileNodeMap
      ensures Sums(fileNodeMap, nodes, refs)
      ensures inserted == (old(nodes)[id].name !in old(fileNodeMap))
      ensures !inserted ==> fileNodeMap == old(fileNodeMap) && nodes == old(nodes)
      ensures inserted ==>
                && fileNodeMap == old(fileNodeMap)[old(nodes)[id].name := id]
                && nodes == old(nodes)[id := old(nodes)[id].(refCount := old(nodes)[id].refCount + 1)]
    {
      var name := nodes[id].name;
      inserted := name !in fileNodeMap;
      if inserted {
        fileNodeMap := fileNodeMap[name := id];
        nodes := nodes[id := nodes[id].(refCount := nodes[id].refCount + 1)];
        assert forall x | x in nodes && x != id ::
          Linked(fileNodeMap, nodes, x) == Linked(old(fileNodeMap), old(nodes), x);
      }
    }

    /** Erases the node's name and drops the map's reference to it. Were the name another node's, that entry would go
        and this node would lose the reference. */
    method MapRemove(id: NodeId)
      requires Consistent() && id in nodes
      modifies this`nodes, this`fileNodeMap, this`refs
      ensures fileNodeMap == old(fileNodeMap) - {old(nodes)[id].name}
      ensures nodes == if old(nodes)[id].name in old(fileNodeMap) then Released(old(nodes), id) else old(nodes)
      ensures old(InMap(id)) || old(nodes)[id].name !in old(fileNodeMap) ==>
                && Consistent()
                && (id in nodes <==> old(refs)[id] > 0)
      ensures !old(InMap(id)) ==> refs == old(refs)
      ensures old(InMap(id)) && id in nodes ==>
                && nodes == old(nodes)[id := old(nodes)[id].(refCount := old(nodes)[id].refCount - 1)]
                && refs == old(refs)
      ensures id !in nodes ==> nodes == old(nodes) - {id}
      ensures id !in nodes && old(InMap(id)) ==> refs == old(refs) - {id}
    {
      hide Counted;
      MapHoldsLinked(fileNodeMap, nodes, refs, id);
      var name := nodes[id].name;
      if name in fileNodeMap {
        ghost var linked, index := InMap(id), fileNodeMap;
        if linked {
          Unlinked(index, nodes, refs, id);
          ReleasedCounted(index - {name}, nodes, refs[id := refs[id] + 1], id);
        }
        fileNodeMap := fileNodeMap - {name};
        Release(id);
        if linked && id !in nodes {
          refs := refs - {id};
        }
        assert linked && id in nodes ==> refs[id := refs[id] + 1][id := refs[id]] == refs;
        assert linked && id !in nodes ==> old(refs)[id := old(refs)[id] + 1] - {id} == refs;
      }
    }

    /** The first stored name after p. */
    method UpperBound(p: Path) returns (next: Option<Path>)
      ensures IsUpperBound(fileNodeMap.Keys, p, next)
    {
      var rest := fileNodeMap.Keys;
      next := None;
      while rest != {}
        invariant rest <= fileNodeMap.Keys
        invariant IsUpperBound(fileNodeMap.Keys - rest, p, next)
      {
        var k :| k in rest;
        StrictTotalOrder(p, k, k);
        if Less(p, k) && (next.None? || Less(k, next.value)) {
          forall x | x in fileNodeMap.Keys - rest && Less(p, x) ensures AtMost(k, x) {
            StrictTotalOrder(k, next.value, x);
          }
          next := Some(k);
        } else if next.Some? {
          StrictTotalOrder(k, next.value, k);
        }
        rest := rest - {k};
      }
      assert fileNodeMap.Keys - rest == fileNodeMap.Keys;
    }

    /** Looks only at the first node after the directory, and that is enough. */
    method MapHasChild(id: NodeId) returns (has: bool)
      requires ParentsStored(fileNodeMap.Keys) && id in nodes
      ensures has <==> exists c :: c in fileNodeMap && IsChild(c, nodes[id].name)
    {
      var name := nodes[id].name;
      var next := UpperBound(name);
      has := false;
      if next.Some? {
        has := CompareNames(NameOf(Parent(next.value)), NameOf(name)) == 0;
        CompareIsPathOrder(Parent(next.value), name);
        StrictTotalOrder(name, name, name);
      }
      forall c | c in fileNodeMap && IsChild(c, name) ensures has {
        DirectoryFirst(name, c);
        FirstAfterIsChild(fileNodeMap.Keys, name, c, next.value);
      }
    }

    // -------------------------------------------------------------- enumeration

    /** Walks the map from a linked node while names keep its prefix: its whole subtree, in order. */
    method EnumerateDescendants(id: NodeId) returns (list: seq<NodeId>, ghost names: seq<Path>)
      requires InMap(id)
      ensures |list| == |names|
      ensures Lists(names, set p | p in fileNodeMap && nodes[id].name <= p)
      ensures forall i :: 0 <= i < |list| ==> names[i] in fileNodeMap && list[i] == fileNodeMap[names[i]]
      ensures forall p :: p in fileNodeMap && nodes[id].name <= p ==> fileNodeMap[p] in list
    {
      hide Less;
      hide NameOf;
      hide HasPrefix;
      var dir := nodes[id].name;
      list, names := [], [];
      var iter: Option<Path> := Some(dir);
      ghost var left := set p | p in fileNodeMap && !Less(p, dir);
      StrictTotalOrder(dir, dir, dir);
      forall p | p in fileNodeMap && dir <= p ensures !Less(p, dir) {
        if p != dir {
          DirectoryFirst(dir, p);
          StrictTotalOrder(dir, p, dir);
        }
      }
      while iter.Some?
        invariant |list| == |names| && Sorted(names)
        invariant iter.Some? ==> iter.value in fileNodeMap && AtMost(dir, iter.value)
        invariant forall p :: p in names <==> p in fileNodeMap && dir <= p && Before(p, iter)
        invariant forall p :: p in fileNodeMap && !Before(p, iter) ==> p in left
        invariant forall i :: 0 <= i < |list| ==> names[i] in fileNodeMap && list[i] == fileNodeMap[names[i]]
        decreases left
      {
        var at := iter.value;
        HasPrefixIsBelow(at, dir);
        if !HasPrefix(NameOf(at), NameOf(dir)) {
          forall p | p in fileNodeMap && dir <= p ensures Before(p, iter) {
            StrictTotalOrder(p, at, p);
            if Less(at, p) { OutsideStaysOutside(dir, at, p); }
          }
          return;
        }
        SortedSnoc(names, at);
        list, names := list + [fileNodeMap[at]], names + [at];
        iter := UpperBound(at);
        NextPasses(fileNodeMap.Keys, at, iter);
        if iter.Some? { StrictTotalOrder(dir, at, iter.value); }
        left := left - {at};
      }
    }

    /** The listing call: children of a directory after a marker, until the caller's buffer has no room. */
    method EnumerateChildren(id: NodeId, marker: Option<Component>, room: nat)
      returns (page: seq<Path>, complete: bool)
      requires id in nodes
      ensures var dir := nodes[id].name;
              var start := if marker.Some? then dir + [marker.value] else dir;
              && Sorted(page)
              && (forall c :: c in page ==> c in fileNodeMap && IsChild(c, dir) && Less(start, c))
              && (forall c :: c in fileNodeMap && IsChild(c, dir) && Less(start, c) && c !in page ==>
                    !complete && |page| == room && forall p :: p in page ==> Less(p, c))
    {
      hide Less;
      hide NameOf;
      hide HasPrefix;
      hide CompareNames;
      var dir := nodes[id].name;
      var start := if marker.Some? then dir + [marker.value] else dir;
      page := [];
      var iter := UpperBound(start);
      ghost var left := fileNodeMap.Keys;
      if marker.Some? { DirectoryFirst(dir, start); }
      NextPasses(fileNodeMap.Keys, start, iter);
      forall p | p in fileNodeMap ensures !(Less(start, p) && (p == start || Less(p, start))) {
        StrictTotalOrder(start, p, start);
      }
      while iter.Some?
        invariant iter.Some? ==> iter.value in fileNodeMap && Less(start, iter.value)
        invariant Sorted(page) && |page| <= room
        invariant forall c :: c in page <==>
                    c in fileNodeMap && IsChild(c, dir) && Less(start, c) && Before(c, iter)
        invariant forall p :: p in fileNodeMap && !Before(p, iter) ==> p in left
        decreases left
      {
        var at := iter.value;
        HasPrefixIsBelow(at, dir);
        if !HasPrefix(NameOf(at), NameOf(dir)) {
          if marker.Some? { StrictTotalOrder(dir, start, at); }
          SubtreeEnds(fileNodeMap.Keys, dir, at);
          return page, true;
        }
        CompareIsPathOrder(Parent(at), dir);
        if CompareNames(NameOf(Parent(at)), NameOf(dir)) == 0 {
          if at == [] {
            StrictTotalOrder(start, at, start);
            if start != [] { DirectoryFirst([], start); }
            assert false;
          }
          if |page| == room {
            forall c | c in fileNodeMap && IsChild(c, dir) && Less(start, c) && c !in page
              ensures forall p :: p in page ==> Less(p, c)
            {
              forall p | p in page ensures Less(p, c) {
                StrictTotalOrder(p, at, c);
                StrictTotalOrder(c, at, c);
              }
            }
            return page, false;
          }
          SortedSnoc(page, at);
          page := page + [at];
        }
        iter := UpperBound(at);
        NextPasses(fileNodeMap.Keys, at, iter);
        if iter.Some? { StrictTotalOrder(start, at, iter.value); }
        left := left - {at};
      }
      complete := true;
    }

    /** The enumeration context holds a reference to every node it collected. */
    method ReferenceAll(list: seq<NodeId>)
      requires Consistent() && (forall x :: x in list ==> x in nodes) && Distinct(list)
      modifies this`nodes, this`refs
      ensures Consistent()
      ensures SameNodes(old(nodes), nodes)
      ensures forall x :: x in refs ==> refs[x] == old(refs)[x] + if x in list then 1 else 0
    {
      hide Counted;
      FactsForTree(fileNodeMap, nodes, refs);
      ghost var before, was := nodes, refs;
      for i := 0 to |list|
        invariant Consistent() && SameNodes(before, nodes) && refs.Keys == was.Keys == nodes.Keys
        invariant forall x :: x in refs ==> refs[x] == was[x] + if x in list[..i] then 1 else 0
      {
        assert list[..i + 1] == list[..i] + [list[i]];
        assert list[i] in list;
        Reference(list[i]);
      }
      assert list[..|list|] == list;
    }

    /** Gives the context's references back; the nodes it names are linked, so none is freed. */
    method EnumerateFree(list: seq<NodeId>)
      requires Consistent() && Distinct(list)
      requires forall x :: x in list ==> InMap(x) && refs[x] > 0
      modifies this`nodes, this`refs
      ensures Consistent()
      ensures SameNodes(old(nodes), nodes)
      ensures forall x :: x in refs ==> refs[x] == old(refs)[x] - if x in list then 1 else 0
    {
      hide Counted;
      hide IsTree;
      hide Distinct;
      FactsForTree(fileNodeMap, nodes, refs);
      ghost var before, was := nodes, refs;
      for i := 0 to |list|
        invariant Consistent() && SameNodes(before, nodes) && refs.Keys == was.Keys
        invariant forall x :: x in refs ==> refs[x] + (if x in list[..i] then 1 else 0) == was[x]
      {
        assert list[..i + 1] == list[..i] + [list[i]];
        assert list[i] in list;
        FirstTime(list, i);
        FreeOne(list[i], before);
      }
      assert list[..|list|] == list;
    }

    /** Drops a reference to a linked node. */
    method FreeOne(id: NodeId, ghost before: Heap)
      requires Consistent() && SameNodes(before, nodes) && Linked(fileNodeMap, before, id)
      requires id in refs && refs[id] > 0
      modifies this`nodes, this`refs
      ensures Consistent() && SameNodes(before, nodes) && refs == old(refs)[id := old(refs)[id] - 1]
    {
      Dereference(id);
    }

    // -------------------------------------------------------------- operations

    method Create(name: Path, directoryOption: bool, directory: bool, allocationSize: nat)
      returns (status: Status, id: NodeId)
      requires Valid()
      modifies this
      ensures Valid()
      ensures status ==
                if MAX_PATH <= |NameOf(name)| then ObjectNameInvalid
                else if name in old(fileNodeMap) then ObjectNameCollision
                else if Parent(name) !in old(fileNodeMap) then ObjectPathNotFound
                else if !old(nodes)[old(fileNodeMap)[Parent(name)]].directory then NotADirectory
                else if |old(fileNodeMap)| >= maxFileNodes then CannotMake
                else if !directoryOption && allocationSize > maxFileSize then DiskFull
                else Success
      ensures status != Success ==>
                fileNodeMap == old(fileNodeMap) && nodes == old(nodes) && refs == old(refs)
      ensures status == Success ==>
                && id !in old(nodes) && id >= old(nextId)
                && fileNodeMap == old(fileNodeMap)[name := id]
                && nodes == old(nodes)[id := Node(name, directory, 2)]
                && refs == old(refs)[id := 1]
    {
      id := 0;
      if MAX_PATH <= |NameOf(name)| {
        return ObjectNameInvalid, 0;
      }
      var size := if directoryOption then 0 else allocationSize;
      if MapGet(name).Some? {
        return ObjectNameCollision, 0;
      }
      status := MapGetParent(name);
      if status != Success {
        return;
      }
      if |fileNodeMap| >= maxFileNodes {
        return CannotMake, 0;
      }
      if size > maxFileSize {
        return DiskFull, 0;
      }
      id := CreateNode(name, directory);
    }

    /** The node itself: allocated, inserted, and referenced once more for the new handle. */
    method CreateNode(name: Path, directory: bool) returns (id: NodeId)
      requires Valid() && |NameOf(name)| < MAX_PATH && name !in fileNodeMap
      requires Parent(name) in fileNodeMap && nodes[fileNodeMap[Parent(name)]].directory
      modifies this
      ensures Valid()
      ensures id !in old(nodes) && id >= old(nextId)
      ensures fileNodeMap == old(fileNodeMap)[name := id]
      ensures nodes == old(nodes)[id := Node(name, directory, 2)]
      ensures refs == old(refs)[id := 1]
    {
      hide Counted;
      hide Sums;
      hide Linked;
      hide IsTree;
      hide NameOf;
      hide Parent;
      TreeFacts(fileNodeMap, nodes);
      id := Allocate(name, directory);
      label inHeap:
      var inserted := MapInsert(id);
      assert inserted;
      NowCounted(fileNodeMap, nodes, refs);
      Reference(id);
      SameTree(fileNodeMap, old@inHeap(nodes), nodes);
    }

    /** A new node that nothing refers to yet, and whose name fits the tree. */
    method Allocate(name: Path, directory: bool) returns (id: NodeId)
      requires Valid() && |NameOf(name)| < MAX_PATH && name !in fileNodeMap
      requires Parent(name) in fileNodeMap && nodes[fileNodeMap[Parent(name)]].directory
      modifies this`nodes, this`refs, this`nextId
      ensures id == old(nextId) && nextId == id + 1 && id !in old(nodes)
      ensures nodes == old(nodes)[id := Node(name, directory, 0)] && refs == old(refs)[id := 0]
      ensures Sums(fileNodeMap, nodes, refs) && !InMap(id)
      ensures IsTree(fileNodeMap[name := id], nodes)
      ensures forall x :: x in nodes ==> x < nextId && (x != id ==> nodes[x].refCount > 0)
    {
      hide Counted;
      hide Sums;
      hide Linked;
      hide IsTree;
      hide NameOf;
      hide Parent;
      id := nextId;
      var node := Node(name, directory, 0);
      TreeFacts(fileNodeMap, nodes);
      Allocated(fileNodeMap, nodes, refs, id, node);
      SameTree(fileNodeMap, nodes, nodes[id := node]);
      GrownTree(fileNodeMap, nodes[id := node], name, id);
      nextId := nextId + 1;
      nodes, refs := nodes[id := node], refs[id := 0];
    }

    method Open(name: Path) returns (status: Status, id: NodeId)
      requires Valid()
      modifies this`nodes, this`refs
      ensures Valid()
      ensures status ==
                if MAX_PATH <= |NameOf(name)| then ObjectNameInvalid
                else if name in fileNodeMap then Success
                else if Parent(name) !in fileNodeMap then ObjectPathNotFound
                else if nodes[fileNodeMap[Parent(name)]].directory then ObjectNameNotFound
                else NotADirectory
      ensures status == Success ==>
                && id == fileNodeMap[name] && refs == old(refs)[id := old(refs)[id] + 1]
                && nodes == old(nodes)[id := old(nodes)[id].(refCount := old(nodes)[id].refCount + 1)]
      ensures status != Success ==> nodes == old(nodes) && refs == old(refs)
    {
      hide Counted;
      hide IsTree;
      hide NameOf;
      hide Linked;
      TreeFacts(fileNodeMap, nodes);
      id := 0;
      if MAX_PATH <= |NameOf(name)| {
        return ObjectNameInvalid, 0;
      }
      var found := MapGet(name);
      if found.None? {
        status := MapGetParent(name);
        if status == Success {
          status := ObjectNameNotFound;
        }
        return;
      }
      id := found.value;
      status := Success;
      Reference(id);
      SameTree(fileNodeMap, old(nodes), nodes);
    }

    method Close(id: NodeId)
      requires Valid() && id in refs && refs[id] > 0
      modifies this`nodes, this`refs
      ensures Valid()
      ensures id in nodes <==> old(InMap(id)) || old(refs)[id] > 1
      ensures id in nodes ==>
                && refs == old(refs)[id := old(refs)[id] - 1]
                && nodes == old(nodes)[id := old(nodes)[id].(refCount := old(nodes)[id].refCount - 1)]
      ensures id !in nodes ==> refs == old(refs) - {id} && nodes == old(nodes) - {id}
    {
      hide Counted;
      hide IsTree;
      TreeFacts(fileNodeMap, nodes);
      MapHoldsLinked(fileNodeMap, nodes, refs, id);
      Dereference(id);
      SameTree(fileNodeMap, old(nodes), nodes);
    }

    /** Cleanup with the delete flag: unlinks the node unless it has a child. */
    method CleanupDelete(id: NodeId)
      requires Valid() && id in refs && refs[id] > 0 && InMap(id) && nodes[id].name != []
      modifies this`nodes, this`fileNodeMap, this`refs
      ensures Valid()
      ensures refs == old(refs)
      ensures (exists c :: c in old(fileNodeMap) && IsChild(c, old(nodes)[id].name)) ==>
                fileNodeMap == old(fileNodeMap) && nodes == old(nodes)
      ensures !(exists c :: c in old(fileNodeMap) && IsChild(c, old(nodes)[id].name)) ==>
                && fileNodeMap == old(fileNodeMap) - {old(nodes)[id].name}
                && nodes == old(nodes)[id := old(nodes)[id].(refCount := old(nodes)[id].refCount - 1)]
    {
      assert id in nodes && ParentsStored(fileNodeMap.Keys);
      hide Consistent;
      hide IsTree;
      hide InMap;
      hide IsChild;
      var has := MapHasChild(id);
      if !has {
        Unlink(id);
      }
    }

    /** Takes a childless node that is still referenced out of the map. */
    method Unlink(id: NodeId)
      requires Valid() && id in refs && refs[id] > 0 && InMap(id) && nodes[id].name != []
      requires !exists c :: c in fileNodeMap && IsChild(c, nodes[id].name)
      modifies this`nodes, this`fileNodeMap, this`refs
      ensures Valid() && refs == old(refs)
      ensures fileNodeMap == old(fileNodeMap) - {old(nodes)[id].name}
      ensures nodes == old(nodes)[id := old(nodes)[id].(refCount := old(nodes)[id].refCount - 1)]
    {
      hide Counted;
      hide IsTree;
      hide NameOf;
      hide IsChild;
      TreeFacts(fileNodeMap, nodes);
      PrunedTree(fileNodeMap, nodes, nodes[id].name);
      MapRemove(id);
      SameTree(fileNodeMap, old(nodes), nodes);
    }

    /** Rewrites the name of a node that is under no name. */
    method SetName(id: NodeId, newName: Path)
      requires Consistent() && id in nodes
      requires nodes[id].name !in fileNodeMap && newName !in fileNodeMap
      modifies this`nodes
      ensures Consistent() && !InMap(id)
      ensures nodes == old(nodes)[id := old(nodes)[id].(name := newName)]
    {
      hide Counted;
      hide Linked;
      NameChanged(fileNodeMap, nodes, refs, id, newName);
      nodes := nodes[id := nodes[id].(name := newName)];
    }

    /** Puts a referenced node into the map. */
    method InsertReferenced(id: NodeId) returns (inserted: bool)
      requires Consistent() && id in nodes && !InMap(id) && nodes[id].name !in fileNodeMap
      modifies this`nodes, this`fileNodeMap
      ensures Consistent() && inserted
      ensures fileNodeMap == old(fileNodeMap)[old(nodes)[id].name := id] && SameNodes(old(nodes), nodes)
    {
      hide Counted;
      hide Sums;
      hide Linked;
      CountedIsSums(fileNodeMap, nodes, refs);
      inserted := MapInsert(id);
      NowCounted(fileNodeMap, nodes, refs);
    }

    /** One turn of the rename loop: remove, rewrite the name, insert. */
    method MoveOne(id: NodeId, from: Path, to: Path)
      requires Consistent() && id in nodes && id in refs && refs[id] > 0 && from <= nodes[id].name
      requires InMap(id) || nodes[id].name !in fileNodeMap
      requires Moved(nodes[id].name, from, to) !in fileNodeMap - {nodes[id].name}
      modifies this`nodes, this`fileNodeMap, this`refs
      ensures Consistent() && refs == old(refs)
      ensures var name := old(nodes)[id].name;
              && fileNodeMap == (old(fileNodeMap) - {name})[Moved(name, from, to) := id]
              && SameNodes(old(nodes)[id := old(nodes)[id].(name := Moved(name, from, to))], nodes)
    {
      hide Consistent;
      hide InMap;
      hide Moved;
      MapRemove(id);
      var newName := Moved(nodes[id].name, from, to);
      SetName(id, newName);
      var inserted := InsertReferenced(id);
      assert inserted;
    }

    /** Unlinks the node that a rename replaces; it is freed unless something still refers to it. */
    method RemoveTarget(id: NodeId)
      requires Consistent() && InMap(id) && id in refs
      modifies this`nodes, this`fileNodeMap, this`refs
      ensures Consistent()
      ensures fileNodeMap == old(fileNodeMap) - {old(nodes)[id].name}
      ensures id in nodes <==> old(refs)[id] > 0
      ensures nodes.Keys == refs.Keys && nodes.Keys == old(nodes).Keys - (if id in nodes then {} else {id})
      ensures forall x :: x in nodes ==>
                && refs[x] == old(refs)[x]
                && nodes[x].name == old(nodes)[x].name && nodes[x].directory == old(nodes)[x].directory
    {
      Reference(id);
      assert InMap(id);
      MapRemove(id);
      Dereference(id);
    }

    /** The listed nodes stand under the listed names of m0, and are referenced. */
    ghost predicate Listed(m0: Index, list: seq<NodeId>, names: seq<Path>, from: Path)
      reads this
    {
      && |list| == |names| && Distinct(list)
      && Lists(names, set p | p in m0 && from <= p) && InSubtree(m0, names, from)
      && forall i :: 0 <= i < |list| ==>
           && list[i] == m0[names[i]] && list[i] in nodes && nodes[list[i]].name == names[i]
           && list[i] in refs && refs[list[i]] > 0
    }

    /** The rename loop, from the map m0 with the target taken out. */
    method MoveAll(list: seq<NodeId>, ghost names: seq<Path>, from: Path, to: Path, ghost m0: Index)
      requires Consistent() && Listed(m0, list, names, from) && fileNodeMap == m0 - {to}
      requires Apart(from, to) && TargetFree(m0, from, to)
      modifies this`nodes, this`fileNodeMap, this`refs
      ensures Consistent() && refs == old(refs)
      ensures IsRenamed(m0, fileNodeMap, from, to)
      ensures NamesMoved(old(nodes), nodes, list, |list|, from, to)
    {
      MidwayStart(m0, names, from, to);
      assert NamesMoved(nodes, nodes, list, 0, from, to);
      hide Consistent;
      hide Moved;
      hide Apart;
      hide TargetFree;
      hide Midway;
      for i := 0 to |list|
        invariant Consistent() && refs == old(refs)
        invariant Midway(m0, fileNodeMap, names, i, from, to)
        invariant NamesMoved(old(nodes), nodes, list, i, from, to)
      {
        var d := list[i];
        ghost var mid := nodes;
        ghost var m := fileNodeMap;
        assert d == m0[names[i]] && old(nodes)[d].name == names[i];
        FirstTime(list, i);
        NextToMove(m0, m, names, i, from, to);
        MidwayStep(m0, m, names, i, from, to);
        MoveOne(d, from, to);
        NamesMovedStep(old(nodes), mid, nodes, list, i, from, to);
      }
      MidwayEnd(m0, fileNodeMap, names, from, to);
    }

    /** The length check of every moved name, as the source computes it. */
    method TooLong(list: seq<NodeId>, ghost names: seq<Path>, from: Path, to: Path) returns (tooLong: bool)
      requires Listed(fileNodeMap, list, names, from) && from != [] && to != []
      ensures tooLong <==>
                exists p :: p in fileNodeMap && from <= p && MAX_PATH <= |NameOf(Moved(p, from, to))|
    {
      hide NameOf;
      tooLong := false;
      var i := 0;
      while i < |list|
        invariant 0 <= i <= |list|
        invariant forall j :: 0 <= j < i ==> |NameOf(Moved(names[j], from, to))| < MAX_PATH
      {
        assert names[i] == from + names[i][|from|..];
        RenamedName(from, to, names[i][|from|..]);
        if MAX_PATH <= |NameOf(nodes[list[i]].name)| - |NameOf(from)| + |NameOf(to)| {
          assert names[i] in fileNodeMap;
          return true;
        }
        i := i + 1;
      }
      forall p | p in fileNodeMap && from <= p ensures |NameOf(Moved(p, from, to))| < MAX_PATH {
        assert p in names;
      }
    }

    /** Takes out the replaced node, if any, and moves the subtree. */
    method ReplaceAndMove(list: seq<NodeId>, ghost names: seq<Path>, from: Path, to: Path, target: Option<NodeId>)
      requires Consistent() && Listed(fileNodeMap, list, names, from)
      requires Apart(from, to) && TargetFree(fileNodeMap, from, to)
      requires target == MapGet(to)
      modifies this`nodes, this`fileNodeMap, this`refs
      ensures Consistent()
      ensures IsRenamed(old(fileNodeMap), fileNodeMap, from, to)
      ensures SurvivorsMoved(old(nodes), nodes, old(refs), refs, list, from, to, target)
    {
      hide Consistent;
      hide Apart;
      hide TargetFree;
      hide Lists;
      hide InSubtree;
      hide Listed;
      hide IsRenamed;
      ghost var m0 := fileNodeMap;
      TakeOut(list, names, from, to, target);
      ghost var mid, midRefs := nodes, refs;
      MoveAll(list, names, from, to, m0);
      SurvivorsCompose(old(nodes), mid, nodes, old(refs), midRefs, list, from, to, target);
    }

    /** Takes out the replaced node, if there is one. */
    method TakeOut(list: seq<NodeId>, ghost names: seq<Path>, ghost from: Path, to: Path, target: Option<NodeId>)
      requires Consistent() && Listed(fileNodeMap, list, names, from) && target == MapGet(to)
      modifies this`nodes, this`fileNodeMap, this`refs
      ensures Consistent() && fileNodeMap == old(fileNodeMap) - {to}
      ensures Listed(old(fileNodeMap), list, names, from)
      ensures SurvivorsMoved(old(nodes), nodes, old(refs), refs, [], from, to, target)
      ensures nodes.Keys == refs.Keys && forall x :: x in list ==> x in nodes
    {
      FactsForTree(fileNodeMap, nodes, refs);
      if target.Some? {
        hide Lists;
        hide InSubtree;
        RemoveTarget(target.value);
        assert forall i :: 0 <= i < |list| ==> list[i] in nodes;
      }
    }

    /** The part of a rename that cannot fail. */
    method RenameChecked(list: seq<NodeId>, ghost names: seq<Path>, from: Path, to: Path, target: Option<NodeId>)
      requires Consistent() && IsTree(fileNodeMap, nodes) && Listed(fileNodeMap, list, names, from)
      requires from != [] && to != [] && Apart(from, to) && TargetFree(fileNodeMap, from, to)
      requires Parent(to) in fileNodeMap && nodes[fileNodeMap[Parent(to)]].directory
      requires forall p :: p in fileNodeMap && from <= p ==> |NameOf(Moved(p, from, to))| < MAX_PATH
      requires target == MapGet(to)
      modifies this`nodes, this`fileNodeMap, this`refs
      ensures Valid()
      ensures IsRenamed(old(fileNodeMap), fileNodeMap, from, to)
      ensures Survivors(old(nodes), nodes, old(refs), list, target)
      ensures forall x :: x in nodes ==> refs[x] == old(refs)[x] - if x in list then 1 else 0
      ensures forall x :: x in nodes ==>
                && nodes[x].directory == old(nodes)[x].directory
                && (x in list ==> from <= old(nodes)[x].name)
                && nodes[x].name == (if x in list then Moved(old(nodes)[x].name, from, to) else old(nodes)[x].name)
    {
      hide NameOf;
      hide IsTree;
      hide Counted;
      ghost var m0 := fileNodeMap;
      ReplaceAndMove(list, names, from, to, target);
      forall x | x in list ensures InMap(x) && x in refs && refs[x] > 0 {
        var i :| 0 <= i < |list| && list[i] == x;
        assert names[i] in m0;
      }
      hide IsRenamed;
      hide Apart;
      EnumerateFree(list);
      FactsForTree(fileNodeMap, nodes, refs);
      RenamedTree(m0, old(nodes), fileNodeMap, nodes, from, to);
    }

    /** Enumerates the subtree and takes a reference to each node of it. */
    method CollectSubtree(id: NodeId) returns (list: seq<NodeId>, ghost names: seq<Path>)
      requires Consistent() && InMap(id)
      modifies this`nodes, this`refs
      ensures Consistent() && SameNodes(old(nodes), nodes)
      ensures Listed(fileNodeMap, list, names, old(nodes)[id].name)
      ensures forall x :: x in list <==> x in nodes && InMap(x) && old(nodes)[id].name <= nodes[x].name
      ensures nodes.Keys == refs.Keys
      ensures forall x :: x in refs ==> refs[x] == old(refs)[x] + if x in list then 1 else 0
    {
      hide Lists;
      hide IsTree;
      list, names := EnumerateDescendants(id);
      SubtreeCollected(id, list, names);
      FactsForTree(fileNodeMap, nodes, refs);
      hide Counted;
      ReferenceAll(list);
    }

    /** The nodes enumerated are those of the subtree, each once, under their names. */
    lemma SubtreeCollected(id: NodeId, list: seq<NodeId>, names: seq<Path>)
      requires Consistent() && InMap(id) && |list| == |names|
      requires Lists(names, set p | p in fileNodeMap && nodes[id].name <= p)
      requires forall i :: 0 <= i < |list| ==> names[i] in fileNodeMap && list[i] == fileNodeMap[names[i]]
      ensures Distinct(list) && InSubtree(fileNodeMap, names, nodes[id].name)
      ensures forall x :: x in list <==> x in nodes && InMap(x) && nodes[id].name <= nodes[x].name
      ensures forall i :: 0 <= i < |list| ==> list[i] in nodes && nodes[list[i]].name == names[i]
    {
      var from := nodes[id].name;
      forall i, j | 0 <= i < j < |list| ensures list[i] != list[j] {
        if list[i] == list[j] {
          SortedDistinct(names, i, j);
        }
      }
      assert forall i :: 0 <= i < |names| ==> names[i] in names;
      forall x ensures x in list <==> x in nodes && InMap(x) && from <= nodes[x].name {
        if x in list {
          var i :| 0 <= i < |list| && list[i] == x;
          assert names[i] in names;
        }
        if x in nodes && InMap(x) && from <= nodes[x].name {
          assert nodes[x].name in names;
          var i :| 0 <= i < |names| && names[i] == nodes[x].name;
          assert list[i] == x;
        }
      }
    }

    method Rename(id: NodeId, newName: Path, replaceIfExists: bool) returns (status: Status)
      requires Valid() && InMap(id) && nodes[id].name != []
      requires newName != [] ==>
                 Parent(newName) in fileNodeMap && nodes[fileNodeMap[Parent(newName)]].directory
      requires !(nodes[id].name < newName)
      modifies this`nodes, this`fileNodeMap, this`refs
      ensures Valid()
      ensures var from := old(nodes)[id].name;
              var taken := newName in old(fileNodeMap) && old(fileNodeMap)[newName] != id;
              status ==
                if taken && !replaceIfExists then ObjectNameCollision
                else if taken && old(nodes)[old(fileNodeMap)[newName]].directory then AccessDenied
                else if exists p :: p in old(fileNodeMap) && from <= p && MAX_PATH <= |NameOf(Moved(p, from, newName))|
                then ObjectNameInvalid
                else Success
      ensures status != Success ==>
                fileNodeMap == old(fileNodeMap) && nodes == old(nodes) && refs == old(refs)
      ensures status == Success ==>
                && IsRenamed(old(fileNodeMap), fileNodeMap, old(nodes)[id].name, newName)
                && RenamedNodes(old(fileNodeMap), old(nodes), old(refs), nodes, refs, id, newName)
    {
      hide NameOf;
      hide IsTree;
      hide Counted;
      var from := nodes[id].name;
      FactsForTree(fileNodeMap, nodes, refs);
      var target := MapGet(newName);
      if target.Some? && target.value != id {
        if !replaceIfExists {
          return ObjectNameCollision;
        }
        if nodes[target.value].directory {
          return AccessDenied;
        }
      }
      RootIsDirectory(fileNodeMap, nodes, refs, id);
      TargetPassed(fileNodeMap, nodes, from, newName);
      status := RenamePassed(id, newName, target);
    }

    /** The rename after the checks on the target. */
    method RenamePassed(id: NodeId, newName: Path, target: Option<NodeId>) returns (status: Status)
      requires Valid() && InMap(id) && nodes[id].name != [] && newName != []
      requires Parent(newName) in fileNodeMap && nodes[fileNodeMap[Parent(newName)]].directory
      requires Apart(nodes[id].name, newName) && TargetFree(fileNodeMap, nodes[id].name, newName)
      requires target == MapGet(newName)
      modifies this`nodes, this`fileNodeMap, this`refs
      ensures Valid()
      ensures var from := old(nodes)[id].name;
              status ==
                if exists p :: p in old(fileNodeMap) && from <= p && MAX_PATH <= |NameOf(Moved(p, from, newName))|
                then ObjectNameInvalid
                else Success
      ensures status != Success ==>
                fileNodeMap == old(fileNodeMap) && nodes == old(nodes) && refs == old(refs)
      ensures status == Success ==>
                && IsRenamed(old(fileNodeMap), fileNodeMap, old(nodes)[id].name, newName)
                && RenamedNodes(old(fileNodeMap), old(nodes), old(refs), nodes, refs, id, newName)
    {
      hide NameOf;
      hide IsTree;
      hide Counted;
      hide Sums;
      hide Lists;
      hide InSubtree;
      hide Listed;
      hide Apart;
      hide TargetFree;
      hide IsRenamed;
      hide Moved;
      var from := nodes[id].name;
      FactsForTree(fileNodeMap, nodes, refs);
      var list; ghost var names;
      list, names := CollectSubtree(id);
      ghost var mid, midRefs := nodes, refs;
      SameTree(fileNodeMap, old(nodes), nodes);
      assert forall x :: x in list ==> InMap(x);
      var tooLong := TooLong(list, names, from, newName);
      if tooLong {
        GiveUp(list, names, from, old(nodes), old(refs));
        return ObjectNameInvalid;
      }
      RenameChecked(list, names, from, newName, target);
      FactsForTree(fileNodeMap, nodes, refs);
      ComposeRenamed(old(fileNodeMap), old(nodes), old(refs), mid, midRefs, nodes, refs, list, id, newName, target);
      status := Success;
    }

    /** A rename that fails gives every reference back, and nothing has changed. */
    method GiveUp(list: seq<NodeId>, ghost names: seq<Path>, ghost from: Path, ghost before: Heap, ghost was: Counts)
      requires Consistent() && Listed(fileNodeMap, list, names, from) && forall x :: x in list ==> InMap(x)
      requires Counted(fileNodeMap, before, was) && SameNodes(before, nodes)
      requires forall x :: x in refs ==> x in was && refs[x] == was[x] + if x in list then 1 else 0
      modifies this`nodes, this`refs
      ensures Consistent() && nodes == before && refs == was
    {
      FactsForTree(fileNodeMap, nodes, refs);
      FactsForTree(fileNodeMap, before, was);
      hide Counted;
      AllReferenced(list, names, from);
      EnumerateFree(list);
      FactsForTree(fileNodeMap, nodes, refs);
      assert refs == was;
      CountsDetermined(fileNodeMap, before, nodes, refs);
    }

    lemma AllReferenced(list: seq<NodeId>, names: seq<Path>, from: Path)
      requires Listed(fileNodeMap, list, names, from)
      ensures Distinct(list) && forall x :: x in list ==> x in refs && refs[x] > 0
    {
    }

    /** A caller that lists a directory page by page, resuming after the last name it was given,
        sees every child exactly once, in order, whatever room each call has. */
    method ListDirectory(id: NodeId, room: nat -> nat) returns (all: seq<Path>)
      requires id in nodes && forall call: nat :: room(call) > 0
      ensures Lists(all, set c | c in fileNodeMap && IsChild(c, nodes[id].name))
    {
      hide Less;
      hide NameOf;
      var dir := nodes[id].name;
      all := [];
      var marker: Option<Component> := None;
      var call := 0;
      ghost var start := dir;
      ghost var left := set c | c in fileNodeMap && IsChild(c, dir);
      forall c | c in left ensures Less(dir, c) {
        DirectoryFirst(dir, c);
      }
      while true
        invariant start == if marker.Some? then dir + [marker.value] else dir
        invariant Sorted(all) && forall c :: c in all ==> c in fileNodeMap && IsChild(c, dir) && AtMost(c, start)
        invariant forall c :: c in left <==> c in fileNodeMap && IsChild(c, dir) && Less(start, c)
        invariant forall c :: c in fileNodeMap && IsChild(c, dir) && !Less(start, c) ==> c in all
        decreases left
      {
        var page, complete := EnumerateChildren(id, marker, room(call));
        call := call + 1;
        AppendPage(all, page, start);
        all := all + page;
        if complete {
          return;
        }
        if page == [] {
          assert room(call - 1) > 0;
          assert left == {};
          return;
        }
        var last := page[|page| - 1];
        assert last in page;
        ResumeAfter(page, start, last);
        forall c | c in fileNodeMap && IsChild(c, dir) && !Less(last, c) ensures c in all {
          StrictTotalOrder(last, c, last);
          assert Less(start, c) && c !in page ==> Less(last, c);
        }
        forall c | c in all ensures AtMost(c, last) {
          if c !in page { StrictTotalOrder(c, start, last); }
        }
        marker := Some(last[|dir|]);
        assert last == dir + [last[|dir|]];
        start := last;
        left := set c | c in left && Less(last, c);
        StrictTotalOrder(last, last, last);
      }
    }
  }
}
