/** Whole runs of the in-memory file system: the references held are the handles that are open. */
module MemfsRun {
  import opened NameOrder
  import opened PathTree
  import opened Memfs

  /** Requests name a handle by its position in the list of open ones. */
  datatype Request =
    | CreateFile(name: Path, directoryOption: bool, directory: bool, allocationSize: nat)
    | OpenFile(name: Path)
    | CloseHandle(h: nat)
    | DeleteOnCleanup(h: nat)
    | RenameTo(h: nat, newName: Path, replaceIfExists: bool)

  function Handles(open: seq<NodeId>, id: NodeId): nat {
    multiset(open)[id]
  }

  /** Every node is referenced once for each handle open on it, and handles are open on nodes only. */
  ghost predicate HandlesCounted(refs: Counts, open: seq<NodeId>) {
    && (forall id :: id in refs ==> refs[id] == Handles(open, id))
    && (forall id :: id in open ==> id in refs)
  }

  function Without(open: seq<NodeId>, h: nat): (rest: seq<NodeId>)
    requires h < |open|
    ensures |rest| == |open| - 1
  {
    open[..h] + open[h + 1..]
  }

  lemma HandleOpened(refs: Counts, open: seq<NodeId>, id: NodeId)
    requires HandlesCounted(refs, open) && id in refs
    ensures HandlesCounted(refs[id := refs[id] + 1], open + [id])
  {
  }

  lemma FirstHandle(refs: Counts, open: seq<NodeId>, id: NodeId)
    requires HandlesCounted(refs, open) && id !in refs
    ensures HandlesCounted(refs[id := 1], open + [id])
  {
    assert id !in open;
  }

  lemma Removed(open: seq<NodeId>, h: nat)
    requires h < |open|
    ensures forall id :: Handles(Without(open, h), id) == Handles(open, id) - if id == open[h] then 1 else 0
    ensures Handles(open, open[h]) > 0
    ensures forall id :: id in Without(open, h) <==> Handles(Without(open, h), id) > 0
  {
    assert open == open[..h] + ([open[h]] + open[h + 1..]);
    assert multiset(open) == multiset(open[..h]) + (multiset{open[h]} + multiset(open[h + 1..]));
    assert multiset(Without(open, h)) == multiset(open[..h]) + multiset(open[h + 1..]);
  }

  lemma HandleClosed(refs: Counts, open: seq<NodeId>, h: nat)
    requires HandlesCounted(refs, open) && h < |open|
    ensures open[h] in refs && refs[open[h]] > 0
    ensures HandlesCounted(refs[open[h] := refs[open[h]] - 1], Without(open, h))
    ensures refs[open[h]] == 1 ==> HandlesCounted(refs - {open[h]}, Without(open, h))
  {
    Removed(open, h);
    assert forall id :: id in open <==> Handles(open, id) > 0;
    hide Without;
  }

  /** The file system and the open handles at one moment. */
  datatype Moment = Moment(index: Index, nodes: Heap, open: seq<NodeId>)

  /** What the kernel asks only of a file that is there: a name other than the root's, and for a rename a
      directory to move to that is not inside the moved subtree. */
  ghost predicate Sensible(m: Moment, r: Request) {
    match r
    case CreateFile(_, _, _, _) => true
    case OpenFile(_) => true
    case CloseHandle(h) => h < |m.open|
    case DeleteOnCleanup(h) => h < |m.open| && Linked(m.index, m.nodes, m.open[h]) && m.nodes[m.open[h]].name != []
    case RenameTo(h, newName, _) =>
      && h < |m.open| && Linked(m.index, m.nodes, m.open[h]) && m.nodes[m.open[h]].name != []
      && (newName != [] ==> IsDirectory(m, Parent(newName)))
      && !(m.nodes[m.open[h]].name < newName)
  }

  ghost predicate IsDirectory(m: Moment, p: Path) {
    p in m.index && m.index[p] in m.nodes && m.nodes[m.index[p]].directory
  }

  ghost predicate HasChild(m: Moment, p: Path) {
    exists c :: c in m.index && IsChild(c, p)
  }

  /** Success of the requests by name. */
  ghost predicate CanCreate(m: Moment, r: Request, maxNodes: nat, maxSize: nat)
    requires r.CreateFile?
  {
    && |NameOf(r.name)| < MAX_PATH && r.name !in m.index && IsDirectory(m, Parent(r.name)) && |m.index| < maxNodes
    && (r.directoryOption || r.allocationSize <= maxSize)
  }

  ghost predicate CanRename(m: Moment, id: NodeId, to: Path, replaceIfExists: bool)
    requires id in m.nodes
  {
    && (to in m.index && m.index[to] != id ==>
          replaceIfExists && m.index[to] in m.nodes && !m.nodes[m.index[to]].directory)
    && forall p :: p in m.index && m.nodes[id].name <= p ==> |NameOf(Moved(p, m.nodes[id].name, to))| < MAX_PATH
  }

  /** The status that a request returns, by the checks in their order; closing and cleaning up return none. */
  ghost function StatusOf(m: Moment, r: Request, maxNodes: nat, maxSize: nat): Status {
    if !Sensible(m, r) then Success
    else
      match r
      case CreateFile(name, directoryOption, _, allocationSize) =>
        if MAX_PATH <= |NameOf(name)| then ObjectNameInvalid
        else if name in m.index then ObjectNameCollision
        else if Parent(name) !in m.index then ObjectPathNotFound
        else if !IsDirectory(m, Parent(name)) then NotADirectory
        else if |m.index| >= maxNodes then CannotMake
        else if !directoryOption && allocationSize > maxSize then DiskFull
        else Success
      case OpenFile(name) =>
        if MAX_PATH <= |NameOf(name)| then ObjectNameInvalid
        else if name in m.index then Success
        else if Parent(name) !in m.index then ObjectPathNotFound
        else if IsDirectory(m, Parent(name)) then ObjectNameNotFound
        else NotADirectory
      case RenameTo(h, newName, replaceIfExists) =>
        var taken := newName in m.index && m.index[newName] != m.open[h];
        if taken && !replaceIfExists then ObjectNameCollision
        else if taken && IsDirectory(m, newName) then AccessDenied
        else if exists p :: p in m.index && m.nodes[m.open[h]].name <= p
                            && MAX_PATH <= |NameOf(Moved(p, m.nodes[m.open[h]].name, newName))|
        then ObjectNameInvalid
        else Success
      case _ => Success
  }

  /** A request that does not succeed changes nothing. */
  lemma FailureChangesNothing(m: Moment, r: Request, n: Moment, maxNodes: nat, maxSize: nat)
    requires Stepped(m, r, n, maxNodes, maxSize) && StatusOf(m, r, maxNodes, maxSize) != Success
    ensures n == m
  {
    hide NameOf;
    hide Moved;
    hide IsRenamed;
  }

  function Recounted(nodes: Heap, id: NodeId, delta: int): Heap
    requires id in nodes
  {
    nodes[id := nodes[id].(refCount := nodes[id].refCount + delta)]
  }

  /** What one request does. */
  ghost predicate Stepped(m: Moment, r: Request, n: Moment, maxNodes: nat, maxSize: nat) {
    if !Sensible(m, r) then n == m
    else
      match r
      case CreateFile(name, _, directory, _) =>
        if !CanCreate(m, r, maxNodes, maxSize) then n == m
        else exists id :: CreatedAs(m, name, directory, n, id)
      case OpenFile(name) =>
        if name in m.index && m.index[name] in m.nodes && |NameOf(name)| < MAX_PATH
        then n == Moment(m.index, Recounted(m.nodes, m.index[name], 1), m.open + [m.index[name]])
        else n == m
      case CloseHandle(h) =>
        && m.open[h] in m.nodes && n.index == m.index && n.open == Without(m.open, h)
        && n.nodes == if Linked(m.index, m.nodes, m.open[h]) || Handles(m.open, m.open[h]) > 1
                      then Recounted(m.nodes, m.open[h], -1) else m.nodes - {m.open[h]}
      case DeleteOnCleanup(h) =>
        if HasChild(m, m.nodes[m.open[h]].name) then n == m
        else n == Moment(m.index - {m.nodes[m.open[h]].name}, Recounted(m.nodes, m.open[h], -1), m.open)
      case RenameTo(h, newName, replaceIfExists) =>
        if !CanRename(m, m.open[h], newName, replaceIfExists) then n == m
        else
          && n.open == m.open && IsRenamed(m.index, n.index, m.nodes[m.open[h]].name, newName)
          && n.nodes.Keys == m.nodes.Keys - Replaced(m, m.open[h], newName)
          && forall x :: x in n.nodes ==>
               && x in m.nodes && n.nodes[x].directory == m.nodes[x].directory
               && n.nodes[x].name == if Linked(m.index, m.nodes, x) && m.nodes[m.open[h]].name <= m.nodes[x].name
                                     then Moved(m.nodes[x].name, m.nodes[m.open[h]].name, newName)
                                     else m.nodes[x].name
  }

  ghost predicate CreatedAs(m: Moment, name: Path, directory: bool, n: Moment, id: NodeId) {
    && id !in m.nodes && n.index == m.index[name := id] && n.open == m.open + [id]
    && n.nodes == m.nodes[id := Node(name, directory, 2)]
  }

  /** The node a rename puts out, unless a handle is open on it. */
  ghost function Replaced(m: Moment, id: NodeId, to: Path): set<NodeId> {
    if to in m.index && m.index[to] != id && Handles(m.open, m.index[to]) == 0 then {m.index[to]} else {}
  }

  ghost function At(fs: Memfs, open: seq<NodeId>): Moment
    reads fs
  {
    Moment(fs.fileNodeMap, fs.nodes, open)
  }

  /** One request. */
  method Serve(fs: Memfs, open: seq<NodeId>, r: Request) returns (now: seq<NodeId>, status: Status)
    requires fs.Valid() && HandlesCounted(fs.refs, open) && Sensible(At(fs, open), r)
    modifies fs
    ensures fs.Valid() && HandlesCounted(fs.refs, now)
    ensures Stepped(old(At(fs, open)), r, At(fs, now), fs.maxFileNodes, fs.maxFileSize)
    ensures status == StatusOf(old(At(fs, open)), r, fs.maxFileNodes, fs.maxFileSize)
  {
    hide Stepped;
    hide Sensible;
    hide StatusOf;
    hide HandlesCounted;
    match r {
      case CreateFile(_, _, _, _) => now, status := ServeCreate(fs, open, r);
      case OpenFile(_) => now, status := ServeOpen(fs, open, r);
      case CloseHandle(_) => now, status := ServeClose(fs, open, r);
      case DeleteOnCleanup(_) => now, status := ServeDelete(fs, open, r);
      case RenameTo(_, _, _) => now, status := ServeRename(fs, open, r);
    }
  }

  method ServeCreate(fs: Memfs, open: seq<NodeId>, r: Request) returns (now: seq<NodeId>, status: Status)
    requires fs.Valid() && HandlesCounted(fs.refs, open) && Sensible(At(fs, open), r) && r.CreateFile?
    modifies fs
    ensures fs.Valid() && HandlesCounted(fs.refs, now)
    ensures Stepped(old(At(fs, open)), r, At(fs, now), fs.maxFileNodes, fs.maxFileSize)
    ensures status == StatusOf(old(At(fs, open)), r, fs.maxFileNodes, fs.maxFileSize)
  {
    hide HandlesCounted;
    hide IsTree;
    hide Counted;
    hide NameOf;
    hide Without;
    hide IsRenamed;
    hide RenamedNodes;
    SameKeys(fs);
    ghost var m, refs := At(fs, open), fs.refs;
    var id;
    status, id := fs.Create(r.name, r.directoryOption, r.directory, r.allocationSize);
    if status != Success {
      return open, status;
    }
    FirstHandle(refs, open, id);
    now := open + [id];
    assert CreatedAs(m, r.name, r.directory, At(fs, now), id);
  }

  method ServeOpen(fs: Memfs, open: seq<NodeId>, r: Request) returns (now: seq<NodeId>, status: Status)
    requires fs.Valid() && HandlesCounted(fs.refs, open) && Sensible(At(fs, open), r) && r.OpenFile?
    modifies fs
    ensures fs.Valid() && HandlesCounted(fs.refs, now)
    ensures Stepped(old(At(fs, open)), r, At(fs, now), fs.maxFileNodes, fs.maxFileSize)
    ensures status == StatusOf(old(At(fs, open)), r, fs.maxFileNodes, fs.maxFileSize)
  {
    hide HandlesCounted;
    hide IsTree;
    hide Counted;
    hide NameOf;
    hide Without;
    hide IsRenamed;
    hide RenamedNodes;
    SameKeys(fs);
    ghost var refs := fs.refs;
    var id;
    status, id := fs.Open(r.name);
    if status != Success {
      return open, status;
    }
    HandleOpened(refs, open, id);
    now := open + [id];
  }

  method ServeClose(fs: Memfs, open: seq<NodeId>, r: Request) returns (now: seq<NodeId>, status: Status)
    requires fs.Valid() && HandlesCounted(fs.refs, open) && Sensible(At(fs, open), r) && r.CloseHandle?
    modifies fs
    ensures fs.Valid() && HandlesCounted(fs.refs, now)
    ensures Stepped(old(At(fs, open)), r, At(fs, now), fs.maxFileNodes, fs.maxFileSize)
    ensures status == StatusOf(old(At(fs, open)), r, fs.maxFileNodes, fs.maxFileSize)
  {
    hide HandlesCounted;
    hide IsTree;
    hide Counted;
    hide NameOf;
    hide Without;
    hide IsRenamed;
    hide RenamedNodes;
    SameKeys(fs);
    HandleClosed(fs.refs, open, r.h);
    HandlesAre(fs.refs, open, open[r.h]);
    fs.Close(open[r.h]);
    now, status := Without(open, r.h), Success;
  }

  method ServeDelete(fs: Memfs, open: seq<NodeId>, r: Request) returns (now: seq<NodeId>, status: Status)
    requires fs.Valid() && HandlesCounted(fs.refs, open) && Sensible(At(fs, open), r) && r.DeleteOnCleanup?
    modifies fs
    ensures fs.Valid() && HandlesCounted(fs.refs, now)
    ensures Stepped(old(At(fs, open)), r, At(fs, now), fs.maxFileNodes, fs.maxFileSize)
    ensures status == StatusOf(old(At(fs, open)), r, fs.maxFileNodes, fs.maxFileSize)
  {
    hide HandlesCounted;
    hide IsTree;
    hide Counted;
    hide NameOf;
    hide Without;
    hide IsRenamed;
    hide RenamedNodes;
    SameKeys(fs);
    HandleClosed(fs.refs, open, r.h);
    fs.CleanupDelete(open[r.h]);
    now, status := open, Success;
  }

  method ServeRename(fs: Memfs, open: seq<NodeId>, r: Request) returns (now: seq<NodeId>, status: Status)
    requires fs.Valid() && HandlesCounted(fs.refs, open) && Sensible(At(fs, open), r) && r.RenameTo?
    modifies fs
    ensures fs.Valid() && HandlesCounted(fs.refs, now)
    ensures Stepped(old(At(fs, open)), r, At(fs, now), fs.maxFileNodes, fs.maxFileSize)
    ensures status == StatusOf(old(At(fs, open)), r, fs.maxFileNodes, fs.maxFileSize)
  {
    hide HandlesCounted;
    hide IsTree;
    hide Counted;
    hide NameOf;
    hide Without;
    hide IsRenamed;
    hide Moved;
    hide Replaced;
    hide Parent;
    hide RenamedNodes;
    SameKeys(fs);
    ghost var m, refs := At(fs, open), fs.refs;
    status := fs.Rename(open[r.h], r.newName, r.replaceIfExists);
    if status == Success {
      StillCounted(m, refs, fs.nodes, fs.refs, open[r.h], r.newName);
      RenamedMeans(m, refs, fs.nodes, fs.refs, open[r.h], r.newName);
    }
    now := open;
  }

  lemma RenamedMeans(m: Moment, refs: Counts, after: Heap, refsAfter: Counts, id: NodeId, to: Path)
    requires id in m.nodes && m.nodes.Keys == refs.Keys
    requires RenamedNodes(m.index, m.nodes, refs, after, refsAfter, id, to)
    ensures forall x :: x in after ==>
              && x in m.nodes && after[x].directory == m.nodes[x].directory
              && after[x].name == if Linked(m.index, m.nodes, x) && m.nodes[id].name <= m.nodes[x].name
                                  then Moved(m.nodes[x].name, m.nodes[id].name, to) else m.nodes[x].name
  {
    hide Moved;
    hide Linked;
  }

  lemma HandlesAre(refs: Counts, open: seq<NodeId>, id: NodeId)
    requires HandlesCounted(refs, open) && id in refs
    ensures refs[id] == Handles(open, id)
  {
  }

  lemma SameKeys(fs: Memfs)
    requires fs.Valid()
    ensures fs.nodes.Keys == fs.refs.Keys
    ensures forall p :: p in fs.fileNodeMap ==> fs.fileNodeMap[p] in fs.nodes
  {
  }

  /** A rename closes no handle: the node it replaces goes only if none is open on it. */
  lemma StillCounted(m: Moment, refs: Counts, after: Heap, refsAfter: Counts, id: NodeId, to: Path)
    requires HandlesCounted(refs, m.open) && id in m.nodes && m.nodes.Keys == refs.Keys
    requires forall p :: p in m.index ==> m.index[p] in m.nodes
    requires RenamedNodes(m.index, m.nodes, refs, after, refsAfter, id, to)
    ensures HandlesCounted(refsAfter, m.open)
    ensures after.Keys == m.nodes.Keys - Replaced(m, id, to)
  {
    hide Moved;
    hide Linked;
    forall x | x in m.open ensures x in refsAfter {
      assert multiset(m.open)[x] > 0;
    }
  }

  /** Any requests, those that the kernel would not pass on left out. Each does what it should to the moment
      before it; and a node exists exactly while it has a name or an open handle, its count the number of both. */
  method Run(requests: seq<Request>, maxNodes: nat, maxSize: nat)
    returns (fs: Memfs, open: seq<NodeId>, statuses: seq<Option<Status>>, ghost moments: seq<Moment>)
    ensures fresh(fs) && fs.Valid()
    ensures |moments| == |requests| + 1 && moments[|requests|] == At(fs, open)
    ensures moments[0] == Moment(map[[] := 0], map[0 := Node([], true, 1)], [])
    ensures forall k :: 0 <= k < |requests| ==>
              Stepped(moments[k], requests[k], moments[k + 1], maxNodes, maxSize)
    ensures |statuses| == |requests|
    ensures forall k :: 0 <= k < |requests| ==>
              statuses[k] == if Sensible(moments[k], requests[k])
                             then Some(StatusOf(moments[k], requests[k], maxNodes, maxSize)) else None
    ensures forall id :: id in fs.nodes <==> fs.InMap(id) || id in open
    ensures forall id :: id in fs.nodes ==>
              fs.nodes[id].refCount == Handles(open, id) + if fs.InMap(id) then 1 else 0
  {
    hide IsTree;
    hide Sensible;
    hide StatusOf;
    hide Stepped;
    fs := new Memfs(maxNodes, maxSize);
    open := [];
    moments, statuses := [At(fs, open)], [];
    for k := 0 to |requests|
      invariant fresh(fs) && fs.Valid() && HandlesCounted(fs.refs, open)
      invariant fs.maxFileNodes == maxNodes && fs.maxFileSize == maxSize
      invariant |moments| == k + 1 && moments[k] == At(fs, open)
      invariant moments[0] == Moment(map[[] := 0], map[0 := Node([], true, 1)], [])
      invariant forall j :: 0 <= j < k ==> Stepped(moments[j], requests[j], moments[j + 1], maxNodes, maxSize)
      invariant |statuses| == k
      invariant forall j :: 0 <= j < k ==>
                  statuses[j] == if Sensible(moments[j], requests[j])
                                 then Some(StatusOf(moments[j], requests[j], maxNodes, maxSize)) else None
    {
      var passed := Passed(fs, open, requests[k]);
      if passed {
        var status;
        open, status := Serve(fs, open, requests[k]);
        statuses := statuses + [Some(status)];
      } else {
        NotPassed(At(fs, open), requests[k], maxNodes, maxSize);
        statuses := statuses + [None];
      }
      moments := moments + [At(fs, open)];
    }
    EveryNode(fs, open);
  }

  lemma NotPassed(m: Moment, r: Request, maxNodes: nat, maxSize: nat)
    requires !Sensible(m, r)
    ensures Stepped(m, r, m, maxNodes, maxSize)
  {
  }

  lemma EveryNode(fs: Memfs, open: seq<NodeId>)
    requires fs.Valid() && HandlesCounted(fs.refs, open)
    ensures forall id :: id in fs.nodes <==> fs.InMap(id) || id in open
    ensures forall id :: id in fs.nodes ==>
              fs.nodes[id].refCount == Handles(open, id) + if fs.InMap(id) then 1 else 0
  {
    hide IsTree;
    forall id ensures id in fs.nodes <==> fs.InMap(id) || id in open {
      if id in fs.nodes && !fs.InMap(id) {
        assert multiset(open)[id] > 0;
      }
    }
  }

  method Passed(fs: Memfs, open: seq<NodeId>, r: Request) returns (passed: bool)
    requires fs.Valid() && HandlesCounted(fs.refs, open)
    ensures passed <==> Sensible(At(fs, open), r)
  {
    SameKeys(fs);
    match r {
      case CreateFile(_, _, _, _) =>
        passed := true;
      case OpenFile(_) =>
        passed := true;
      case CloseHandle(h) =>
        passed := h < |open|;
      case DeleteOnCleanup(h) =>
        passed := h < |open| && Named(fs, open[h]) && fs.nodes[open[h]].name != [];
      case RenameTo(h, newName, _) =>
        passed := h < |open| && Named(fs, open[h]) && fs.nodes[open[h]].name != []
                  && (newName != [] ==>
                        Parent(newName) in fs.fileNodeMap && fs.nodes[fs.fileNodeMap[Parent(newName)]].directory)
                  && !(fs.nodes[open[h]].name < newName);
    }
  }

  predicate Named(fs: Memfs, id: NodeId)
    reads fs
  {
    id in fs.nodes && fs.nodes[id].name in fs.fileNodeMap && fs.fileNodeMap[fs.nodes[id].name] == id
  }
}
