/**
  The concrete state of the virtual file system, and what it means for it to
  represent a state of the cacheless specification. `loc` records, for every
  entry ever made, the location it was made for.
 */
module VfsState {
  import opened FsTypes
  import opened Namespace
  import opened CacheSpec
  import FsSpec
  import FsInvariants

  datatype FsNode = FsNode(kind: NodeKind, links: nat, data: NodeData)

  datatype FileSystem = FileSystem(kind: FsKind, nextNodeId: nat)

  datatype VfsMount = VfsMount(root: EntryId, fs: FileSystem)

  datatype File = File(node: NodeRef, mode: FileMode, position: nat)

  datatype World = World(
    cache: Cache,
    nodes: map<NodeRef, FsNode>,
    mounts: map<MountId, VfsMount>,
    files: map<FileDescriptor, File>,
    nextFd: FileDescriptor,
    nextMount: MountId,
    devices: map<string, DeviceKind>)

  type Locations = map<EntryId, Location>

  /** How the specification sees a node. */
  function ViewOf(nodes: map<NodeRef, FsNode>, r: NodeRef): View
    requires r in nodes
  {
    if nodes[r].data.Device? then DeviceNode(r.mount, nodes[r].data.name) else Stable(r)
  }

  function StableData(nodes: map<NodeRef, FsNode>): map<NodeRef, NodeData> {
    map r | r in nodes && !nodes[r].data.Device? :: nodes[r].data
  }

  /** A node's mount is in the mount table, and its kind and private data are
      those its driver makes: what `file_system` and `data_as` rely on. */
  predicate NodeOk(nodes: map<NodeRef, FsNode>, mounts: map<MountId, VfsMount>, devices: map<string, DeviceKind>,
                   r: NodeRef)
    requires r in nodes
  {
    && r.mount in mounts
    && r.id < mounts[r.mount].fs.nextNodeId
    && var n := nodes[r];
      match mounts[r.mount].fs.kind
      case RamFs => (n.kind.Directory? && n.data.RamDirectory?) || (n.kind.RegularFile? && n.data.RamFile?)
      case DevFs =>
        if r.id == 0 then n.kind.Directory? && n.data.NoData?
        else n.kind.CharDevice? && n.data.Device? && n.data.name in devices
  }

  ghost predicate NodesLinked(nodes: map<NodeRef, FsNode>, mounts: map<MountId, VfsMount>,
                              devices: map<string, DeviceKind>, ns: Namespace) {
    && ns.data == StableData(nodes)
    && ns.devices == devices
    && (forall r {:trigger NodeOk(nodes, mounts, devices, r)} :: r in nodes ==> NodeOk(nodes, mounts, devices, r))
  }

  /** A live entry has a node, lies where its parent chain says, and its node is
      the one the specification finds there. */
  predicate EntryLinked(c: Cache, nodes: map<NodeRef, FsNode>, loc: Locations, ns: Namespace, e: EntryId)
    requires e in c.entries
  {
    var x := c.entries[e];
    && e in loc
    && x.node in nodes
    && NodeAt(ns, loc[e]) == Some(ViewOf(nodes, x.node))
    && match x.parent
       case None => loc[e] == []
       case Some(p) => p in loc && loc[e] == loc[p] + [x.name]
  }

  ghost predicate EntriesLinked(c: Cache, nodes: map<NodeRef, FsNode>, loc: Locations, ns: Namespace) {
    forall e {:trigger EntryLinked(c, nodes, loc, ns, e)} :: e in c.entries ==> EntryLinked(c, nodes, loc, ns, e)
  }

  /** A mounted file system: the mount table keeps its root entry alive. */
  predicate MountLinked(mounts: map<MountId, VfsMount>, c: Cache, loc: Locations, fs: FsSpec.Fs, m: MountId)
    requires m in mounts
  {
    var root := mounts[m].root;
    && m < fs.nextMount
    && root in c.handles
    && root in c.entries
    && c.entries[root].node == RootNode(m)
    && root in loc
    && loc[root] in fs.ns.mountAt
    && fs.ns.mountAt[loc[root]] == m
    && mounts[m].fs.nextNodeId > 0
    && (m in fs.nextNode <==> mounts[m].fs.kind.RamFs?)
    && (m in fs.nextNode ==> fs.nextNode[m] == mounts[m].fs.nextNodeId)
  }

  predicate LocationMounted(mounts: map<MountId, VfsMount>, loc: Locations, ns: Namespace, l: Location)
    requires l in ns.mountAt
  {
    var m := ns.mountAt[l];
    m in mounts && mounts[m].root in loc && loc[mounts[m].root] == l
  }

  ghost predicate MountsLinked(mounts: map<MountId, VfsMount>, c: Cache, loc: Locations, fs: FsSpec.Fs) {
    && (forall m {:trigger MountLinked(mounts, c, loc, fs, m)} :: m in mounts ==> MountLinked(mounts, c, loc, fs, m))
    && (forall l {:trigger LocationMounted(mounts, loc, fs.ns, l)} :: l in fs.ns.mountAt ==> LocationMounted(mounts, loc, fs.ns, l))
    && (forall m :: m in fs.nextNode ==> m in mounts)
  }

  predicate FileLinked(files: map<FileDescriptor, File>, nodes: map<NodeRef, FsNode>, fs: FsSpec.Fs, fd: FileDescriptor)
    requires fd in files
  {
    var f := files[fd];
    && f.node in nodes
    && fd in fs.files
    && fs.files[fd] == FsSpec.OpenFile(ViewOf(nodes, f.node), f.mode, f.position)
  }

  function OpenOn(files: map<FileDescriptor, File>, r: NodeRef): set<FileDescriptor> {
    set fd | fd in files && files[fd].node == r
  }

  /** A node's link count is one for its name plus one per open descriptor. */
  predicate LinksOk(files: map<FileDescriptor, File>, nodes: map<NodeRef, FsNode>, r: NodeRef)
    requires r in nodes
  {
    nodes[r].links == 1 + |OpenOn(files, r)|
  }

  ghost predicate FilesLinked(files: map<FileDescriptor, File>, nodes: map<NodeRef, FsNode>, fs: FsSpec.Fs) {
    && fs.files.Keys == files.Keys
    && (forall fd {:trigger FileLinked(files, nodes, fs, fd)} :: fd in files ==> FileLinked(files, nodes, fs, fd))
    && (forall r {:trigger LinksOk(files, nodes, r)} :: r in nodes ==> LinksOk(files, nodes, r))
  }

  ghost predicate LocsKnown(loc: Locations, next: EntryId) {
    forall e :: e in loc ==> e < next
  }

  /** The concrete state represents the specification's state. */
  ghost predicate Represents(w: World, loc: Locations, fs: FsSpec.Fs) {
    && Coherent(w.cache)
    && FsInvariants.Invariant(fs)
    && NodesLinked(w.nodes, w.mounts, w.devices, fs.ns)
    && EntriesLinked(w.cache, w.nodes, loc, fs.ns)
    && MountsLinked(w.mounts, w.cache, loc, fs)
    && FilesLinked(w.files, w.nodes, fs)
    && w.nextFd == fs.nextFd
    && w.nextMount == fs.nextMount
    && LocsKnown(loc, w.cache.next)
  }

  // ---------------------------------------------------------------------
  // Consequences
  // ---------------------------------------------------------------------

  /** Equal locations mean the same live entry: comparing ids is comparing places. */
  lemma {:induction false} OneEntryPerLocation(c: Cache, nodes: map<NodeRef, FsNode>, loc: Locations, ns: Namespace,
                                               e1: EntryId, e2: EntryId)
    requires Coherent(c) && EntriesLinked(c, nodes, loc, ns)
    requires e1 in c.entries && e2 in c.entries
    requires e1 in loc && e2 in loc && loc[e1] == loc[e2]
    ensures e1 == e2
    decreases e1
  {
    assert EntryLinked(c, nodes, loc, ns, e1) && EntryLinked(c, nodes, loc, ns, e2);
    assert EntryOk(c, e1) && EntryOk(c, e2);
    var x1, x2 := c.entries[e1], c.entries[e2];
    if x1.parent.Some? && x2.parent.Some? {
      var l1, l2 := loc[x1.parent.value], loc[x2.parent.value];
      assert l1 == (l1 + [x1.name])[..|loc[e1]| - 1];
      assert l2 == (l2 + [x2.name])[..|loc[e2]| - 1];
      assert x1.name == loc[e1][|loc[e1]| - 1] == x2.name;
      OneEntryPerLocation(c, nodes, loc, ns, x1.parent.value, x2.parent.value);
    }
  }

  /** What is known of a live entry's node, and of a directory's in particular. */
  lemma EntryNode(w: World, loc: Locations, fs: FsSpec.Fs, e: EntryId)
    requires Represents(w, loc, fs) && e in w.cache.entries
    ensures EntryLinked(w.cache, w.nodes, loc, fs.ns, e)
    ensures var r := w.cache.entries[e].node;
            && NodeOk(w.nodes, w.mounts, w.devices, r)
            && (w.nodes[r].kind.Directory? <==> DirectoryAt(fs.ns, loc[e]))
            && (w.nodes[r].kind.Directory? ==>
                  && NodeAt(fs.ns, loc[e]) == Some(Stable(r))
                  && r in fs.ns.data && fs.ns.data[r] == w.nodes[r].data
                  && (w.mounts[r.mount].fs.kind.RamFs? <==> w.nodes[r].data.RamDirectory?)
                  && (w.mounts[r.mount].fs.kind.RamFs? <==> FsSpec.Creator(fs, r))
                  && (w.mounts[r.mount].fs.kind.RamFs? ==> fs.nextNode[r.mount] == w.mounts[r.mount].fs.nextNodeId))
  {
    var r := w.cache.entries[e].node;
    assert EntryLinked(w.cache, w.nodes, loc, fs.ns, e);
    assert NodeOk(w.nodes, w.mounts, w.devices, r);
    assert MountLinked(w.mounts, w.cache, loc, fs, r.mount);
  }

  lemma MountRootNode(w: World, loc: Locations, fs: FsSpec.Fs, m: MountId)
    requires Represents(w, loc, fs) && m in w.mounts
    ensures var root := w.mounts[m].root;
            && root in w.cache.entries
            && w.cache.entries[root].node == RootNode(m)
            && RootNode(m) in w.nodes && w.nodes[RootNode(m)].kind.Directory?
  {
    assert MountLinked(w.mounts, w.cache, loc, fs, m);
    var root := w.mounts[m].root;
    assert EntryLinked(w.cache, w.nodes, loc, fs.ns, root);
    assert NodeOk(w.nodes, w.mounts, w.devices, RootNode(m));
    assert IsDirectory(fs.ns, Stable(RootNode(fs.ns.mountAt[loc[root]])));
  }

  /** Every node reachable from the cache, the mount table or the descriptor table
      has its mount in the mount table and the private data its driver expects. */
  lemma DispatchIsSafe(w: World, loc: Locations, fs: FsSpec.Fs)
    requires Represents(w, loc, fs)
    ensures forall e :: e in w.cache.entries ==>
              w.cache.entries[e].node in w.nodes && NodeOk(w.nodes, w.mounts, w.devices, w.cache.entries[e].node)
    ensures forall fd :: fd in w.files ==>
              w.files[fd].node in w.nodes && NodeOk(w.nodes, w.mounts, w.devices, w.files[fd].node)
    ensures forall m :: m in w.mounts ==>
              && w.mounts[m].root in w.cache.entries && w.cache.entries[w.mounts[m].root].node == RootNode(m)
              && RootNode(m) in w.nodes && w.nodes[RootNode(m)].kind.Directory?
  {
    hide FsInvariants.Invariant, Coherent;
    forall e | e in w.cache.entries ensures w.cache.entries[e].node in w.nodes {
      assert EntryLinked(w.cache, w.nodes, loc, fs.ns, e);
    }
    forall fd | fd in w.files ensures w.files[fd].node in w.nodes {
      assert FileLinked(w.files, w.nodes, fs, fd);
    }
    forall m | m in w.mounts ensures w.mounts[m].root in w.cache.entries && w.cache.entries[w.mounts[m].root].node == RootNode(m) {
      assert MountLinked(w.mounts, w.cache, loc, fs, m);
    }
    forall m | m in w.mounts ensures w.nodes[RootNode(m)].kind.Directory? {
      MountRootNode(w, loc, fs, m);
    }
  }

  /** The root of a mount below `p` is live and is what the cache finds there, so
      a walk that never reads the mount table crosses mounts all the same. */
  lemma MountRootIsChild(w: World, loc: Locations, fs: FsSpec.Fs, p: EntryId, name: string)
    requires Represents(w, loc, fs) && p in w.cache.entries && p in loc
    requires loc[p] + [name] in fs.ns.mountAt
    ensures var m := fs.ns.mountAt[loc[p] + [name]];
            && m in w.mounts
            && Upgrade(w.cache, Key(p, name)) == Some(w.mounts[m].root)
            && w.cache.entries[w.mounts[m].root].parent == Some(p)
            && w.cache.entries[w.mounts[m].root].name == name
  {
    var l := loc[p] + [name];
    var m := fs.ns.mountAt[l];
    assert LocationMounted(w.mounts, loc, fs.ns, l);
    assert MountLinked(w.mounts, w.cache, loc, fs, m);
    var root := w.mounts[m].root;
    var x := w.cache.entries[root];
    assert EntryLinked(w.cache, w.nodes, loc, fs.ns, root);
    assert EntryOk(w.cache, root);
    assert x.parent.Some?;
    var q := x.parent.value;
    assert loc[q] == (loc[q] + [x.name])[..|l| - 1] == loc[p];
    assert x.name == l[|l| - 1] == name;
    OneEntryPerLocation(w.cache, w.nodes, loc, fs.ns, p, q);
  }

  /** A parent's child of some name is at the parent's location plus that name;
      when the cache has none, no mount is there and insertion is allowed. */
  lemma ChildLocation(w: World, loc: Locations, fs: FsSpec.Fs, p: EntryId, name: string)
    requires Represents(w, loc, fs) && p in w.cache.entries
    ensures p in loc
    ensures Upgrade(w.cache, Key(p, name)).Some? ==>
              var e := Upgrade(w.cache, Key(p, name)).value;
              && e in w.cache.entries && e in loc
              && w.cache.entries[e].parent == Some(p) && w.cache.entries[e].name == name
              && loc[e] == loc[p] + [name]
              && NodeAt(fs.ns, loc[e]).Some?
    ensures Upgrade(w.cache, Key(p, name)).None? ==>
              && loc[p] + [name] !in fs.ns.mountAt
              && CanInsert(w.cache, Some(p), name)
  {
    assert EntryLinked(w.cache, w.nodes, loc, fs.ns, p);
    var k, l := Key(p, name), loc[p] + [name];
    if Upgrade(w.cache, k).Some? {
      UpgradedIsChild(w.cache, p, name);
      assert EntryLinked(w.cache, w.nodes, loc, fs.ns, Upgrade(w.cache, k).value);
    } else if l in fs.ns.mountAt {
      MountRootIsChild(w, loc, fs, p, name);
    }
  }

  // ---------------------------------------------------------------------
  // Cache-only changes represent the same specification state
  // ---------------------------------------------------------------------

  /** The same entry up to its count and its list of children. */
  predicate SameIdentity(a: Entry, b: Entry) {
    a.name == b.name && a.node == b.node && a.parent == b.parent
  }

  ghost predicate Shrinks(c: Cache, c': Cache) {
    && c'.next == c.next
    && forall e :: e in c'.entries ==> e in c.entries && SameIdentity(c.entries[e], c'.entries[e])
  }

  ghost predicate RootsIn(mounts: map<MountId, VfsMount>, handles: multiset<EntryId>) {
    forall m :: m in mounts ==> mounts[m].root in handles
  }

  ghost predicate SameRoots(mounts: map<MountId, VfsMount>, mounts': map<MountId, VfsMount>) {
    mounts'.Keys == mounts.Keys && forall m :: m in mounts ==> mounts'[m].root == mounts[m].root
  }

  lemma CacheShrinks(w: World, loc: Locations, fs: FsSpec.Fs, c': Cache)
    requires Represents(w, loc, fs)
    requires Coherent(c') && Shrinks(w.cache, c') && RootsIn(w.mounts, c'.handles)
    ensures Represents(w.(cache := c'), loc, fs)
  {
    forall e | e in c'.entries ensures EntryLinked(c', w.nodes, loc, fs.ns, e) {
      assert EntryLinked(w.cache, w.nodes, loc, fs.ns, e);
    }
    forall m | m in w.mounts ensures MountLinked(w.mounts, c', loc, fs, m) {
      assert MountLinked(w.mounts, w.cache, loc, fs, m);
    }
  }

  lemma RootsAreHeld(w: World, loc: Locations, fs: FsSpec.Fs)
    requires Represents(w, loc, fs)
    ensures RootsIn(w.mounts, w.cache.handles)
    ensures forall e :: e in w.cache.handles ==> e in w.cache.entries
  {
    forall m | m in w.mounts ensures w.mounts[m].root in w.cache.handles {
      assert MountLinked(w.mounts, w.cache, loc, fs, m);
    }
  }

  lemma EntryCloned(w: World, loc: Locations, fs: FsSpec.Fs, e: EntryId)
    requires Represents(w, loc, fs) && e in w.cache.entries
    ensures Represents(w.(cache := Clone(w.cache, e)), loc, fs)
  {
    hide Represents;
    RootsAreHeld(w, loc, fs);
    assert Coherent(w.cache) by { CacheIsCoherent(w, loc, fs); }
    CloneKeeps(w.cache, e);
    CacheShrinks(w, loc, fs, Clone(w.cache, e));
  }

  lemma CacheIsCoherent(w: World, loc: Locations, fs: FsSpec.Fs)
    requires Represents(w, loc, fs)
    ensures Coherent(w.cache)
  {
  }

  lemma EntryDropped(w: World, loc: Locations, fs: FsSpec.Fs, e: EntryId)
    requires Represents(w, loc, fs) && Coherent(w.cache)
    requires e in w.cache.handles && RootsIn(w.mounts, w.cache.handles - multiset{e})
    ensures Represents(w.(cache := Drop(w.cache, e)), loc, fs)
  {
    CacheShrinks(w, loc, fs, Drop(w.cache, e));
  }

  lemma CachePruned(w: World, loc: Locations, fs: FsSpec.Fs)
    requires Represents(w, loc, fs)
    ensures Represents(w.(cache := Prune(w.cache)), loc, fs)
  {
    hide Represents;
    CacheIsCoherent(w, loc, fs);
    RootsAreHeld(w, loc, fs);
    PruneKeeps(w.cache);
    CacheShrinks(w, loc, fs, Prune(w.cache));
  }

  /** `at` is where a new entry of this parent and name belongs. */
  predicate Belongs(loc: Locations, parent: Option<EntryId>, name: string, at: Location) {
    match parent
    case None => at == []
    case Some(p) => p in loc && at == loc[p] + [name]
  }

  lemma EntriesAfterInsert(c: Cache, nodes: map<NodeRef, FsNode>, loc: Locations, ns: Namespace,
                           parent: Option<EntryId>, r: NodeRef, name: string, at: Location)
    requires Shape(c) && EntriesLinked(c, nodes, loc, ns) && CanInsert(c, parent, name)
    requires Belongs(loc, parent, name, at) && (parent.Some? ==> parent.value < c.next)
    requires r in nodes && NodeAt(ns, at) == Some(ViewOf(nodes, r))
    ensures EntriesLinked(Insert(c, parent, r, name), nodes, loc[c.next := at], ns)
  {
    var c', loc' := Insert(c, parent, r, name), loc[c.next := at];
    forall e | e in c'.entries ensures EntryLinked(c', nodes, loc', ns, e) {
      if e != c.next {
        assert EntryLinked(c, nodes, loc, ns, e);
        assert EntryOk(c, e);
      }
    }
  }

  lemma MountsAfterInsert(mounts: map<MountId, VfsMount>, c: Cache, loc: Locations, fs: FsSpec.Fs,
                          parent: Option<EntryId>, r: NodeRef, name: string, at: Location)
    requires MountsLinked(mounts, c, loc, fs) && CanInsert(c, parent, name)
    requires c.next !in c.entries
    ensures MountsLinked(mounts, Insert(c, parent, r, name), loc[c.next := at], fs)
  {
    var c', loc' := Insert(c, parent, r, name), loc[c.next := at];
    forall m | m in mounts ensures MountLinked(mounts, c', loc', fs, m) {
      assert MountLinked(mounts, c, loc, fs, m);
    }
    forall l | l in fs.ns.mountAt ensures LocationMounted(mounts, loc', fs.ns, l) {
      assert LocationMounted(mounts, loc, fs.ns, l);
      assert MountLinked(mounts, c, loc, fs, fs.ns.mountAt[l]);
    }
  }

  /** Caching a node that the specification finds under a name. */
  lemma EntryInserted(w: World, loc: Locations, fs: FsSpec.Fs, p: EntryId, r: NodeRef, name: string)
    requires Represents(w, loc, fs)
    requires p in w.cache.entries && p in loc && CanInsert(w.cache, Some(p), name)
    requires r in w.nodes && NodeAt(fs.ns, loc[p] + [name]) == Some(ViewOf(w.nodes, r))
    ensures Represents(w.(cache := Insert(w.cache, Some(p), r, name)), loc[w.cache.next := loc[p] + [name]], fs)
    ensures w.cache.next !in w.cache.entries && w.cache.next !in loc
  {
    assert EntryOk(w.cache, p);
    hide FsInvariants.Invariant, NodesLinked, EntriesLinked, MountsLinked, FilesLinked, Shape, Counted, CanInsert, NodeAt;
    InsertKeeps(w.cache, Some(p), r, name);
    EntriesAfterInsert(w.cache, w.nodes, loc, fs.ns, Some(p), r, name, loc[p] + [name]);
    MountsAfterInsert(w.mounts, w.cache, loc, fs, Some(p), r, name, loc[p] + [name]);
  }

  // ---------------------------------------------------------------------
  // Driver changes
  // ---------------------------------------------------------------------

  function BumpNodeId(mounts: map<MountId, VfsMount>, m: MountId): map<MountId, VfsMount>
    requires m in mounts
  {
    mounts[m := mounts[m].(fs := mounts[m].fs.(nextNodeId := mounts[m].fs.nextNodeId + 1))]
  }

  function NextNode(mounts: map<MountId, VfsMount>, m: MountId): NodeRef
    requires m in mounts
  {
    NodeRef(m, mounts[m].fs.nextNodeId)
  }

  lemma NextNodeIsFresh(w: World, loc: Locations, fs: FsSpec.Fs, m: MountId)
    requires Represents(w, loc, fs) && m in w.mounts
    ensures NextNode(w.mounts, m) !in w.nodes && NextNode(w.mounts, m).id > 0
    ensures OpenOn(w.files, NextNode(w.mounts, m)) == {}
  {
    var r := NextNode(w.mounts, m);
    assert MountLinked(w.mounts, w.cache, loc, fs, m);
    forall x | x in w.nodes ensures x != r {
      assert NodeOk(w.nodes, w.mounts, w.devices, x);
    }
    forall fd | fd in w.files ensures w.files[fd].node != r {
      assert FileLinked(w.files, w.nodes, fs, fd);
    }
  }

  /** Nodes stay as the specification sees them, whatever else changes in them. */
  ghost predicate ViewsKept(nodes: map<NodeRef, FsNode>, nodes': map<NodeRef, FsNode>) {
    forall r :: r in nodes ==> r in nodes' && ViewOf(nodes', r) == ViewOf(nodes, r)
  }

  lemma EntriesKept(c: Cache, nodes: map<NodeRef, FsNode>, nodes': map<NodeRef, FsNode>, loc: Locations,
                    ns: Namespace, ns': Namespace)
    requires EntriesLinked(c, nodes, loc, ns) && ViewsKept(nodes, nodes')
    requires ns' == ns || Grows(ns, ns')
    ensures EntriesLinked(c, nodes', loc, ns')
  {
    forall e | e in c.entries ensures EntryLinked(c, nodes', loc, ns', e) {
      assert EntryLinked(c, nodes, loc, ns, e);
      if ns' != ns {
        GrowthKeepsNodes(ns, ns', loc[e]);
      }
    }
  }

  lemma MountsBumped(mounts: map<MountId, VfsMount>, c: Cache, loc: Locations, fs: FsSpec.Fs, fs': FsSpec.Fs, m: MountId)
    requires MountsLinked(mounts, c, loc, fs) && m in mounts
    requires fs'.ns.mountAt == fs.ns.mountAt && fs'.nextMount == fs.nextMount
    requires fs'.nextNode == if m in fs.nextNode then fs.nextNode[m := fs.nextNode[m] + 1] else fs.nextNode
    ensures MountsLinked(BumpNodeId(mounts, m), c, loc, fs')
  {
    var mounts' := BumpNodeId(mounts, m);
    forall x | x in mounts' ensures MountLinked(mounts', c, loc, fs', x) {
      assert MountLinked(mounts, c, loc, fs, x);
    }
    forall l | l in fs'.ns.mountAt ensures LocationMounted(mounts', loc, fs'.ns, l) {
      assert LocationMounted(mounts, loc, fs.ns, l);
    }
  }

  lemma NodesBumped(nodes: map<NodeRef, FsNode>, nodes': map<NodeRef, FsNode>, mounts: map<MountId, VfsMount>,
                    devices: map<string, DeviceKind>, m: MountId, r: NodeRef)
    requires m in mounts
    requires forall x {:trigger NodeOk(nodes, mounts, devices, x)} :: x in nodes ==> NodeOk(nodes, mounts, devices, x)
    requires forall x :: x in nodes' && x != r ==>
               x in nodes && nodes'[x].kind == nodes[x].kind
               && (nodes'[x].data == nodes[x].data || (nodes'[x].data.RamDirectory? && nodes[x].data.RamDirectory?))
    requires r in nodes' ==> NodeOk(nodes', BumpNodeId(mounts, m), devices, r)
    ensures forall x {:trigger NodeOk(nodes', BumpNodeId(mounts, m), devices, x)} :: x in nodes' ==>
              NodeOk(nodes', BumpNodeId(mounts, m), devices, x)
  {
    forall x | x in nodes' ensures NodeOk(nodes', BumpNodeId(mounts, m), devices, x) {
      if x != r {
        assert NodeOk(nodes, mounts, devices, x);
      }
    }
  }

  lemma FilesKept(files: map<FileDescriptor, File>, nodes: map<NodeRef, FsNode>, nodes': map<NodeRef, FsNode>,
                  fs: FsSpec.Fs, fs': FsSpec.Fs, r: NodeRef)
    requires FilesLinked(files, nodes, fs) && fs'.files == fs.files
    requires ViewsKept(nodes, nodes') && forall x :: x in nodes ==> nodes'[x].links == nodes[x].links
    requires forall x :: x in nodes' && x !in nodes ==> x == r && nodes'[x].links == 1
    requires OpenOn(files, r) == {}
    ensures FilesLinked(files, nodes', fs')
  {
    forall fd | fd in files ensures FileLinked(files, nodes', fs', fd) {
      assert FileLinked(files, nodes, fs, fd);
    }
    forall x | x in nodes' ensures LinksOk(files, nodes', x) {
      if x in nodes {
        assert LinksOk(files, nodes, x);
      }
    }
  }

  lemma MountIsLinked(w: World, loc: Locations, fs: FsSpec.Fs, m: MountId)
    requires Represents(w, loc, fs) && m in w.mounts
    ensures MountLinked(w.mounts, w.cache, loc, fs, m)
  {
  }

  /** devfs hands out a node id; it may come with a new device node. */
  lemma DeviceNumbered(w: World, loc: Locations, fs: FsSpec.Fs, m: MountId, nodes': map<NodeRef, FsNode>, name: string)
    requires Represents(w, loc, fs) && m in w.mounts && w.mounts[m].fs.kind.DevFs?
    requires name in w.devices
    requires nodes' == w.nodes || nodes' == w.nodes[NextNode(w.mounts, m) := FsNode(CharDevice, 1, Device(name))]
    ensures Represents(w.(nodes := nodes', mounts := BumpNodeId(w.mounts, m)), loc, fs)
  {
    hide FsInvariants.Invariant, Coherent, EntriesLinked, MountsLinked, FilesLinked;
    var r := NextNode(w.mounts, m);
    MountIsLinked(w, loc, fs, m);
    NextNodeIsFresh(w, loc, fs, m);
    assert StableData(nodes') == StableData(w.nodes);
    NodesBumped(w.nodes, nodes', w.mounts, w.devices, m, r);
    EntriesKept(w.cache, w.nodes, nodes', loc, fs.ns, fs.ns);
    MountsBumped(w.mounts, w.cache, loc, fs, fs, m);
    FilesKept(w.files, w.nodes, nodes', fs, fs, r);
  }

  /** The node table after the ramfs driver created a child. */
  function NodesAfterCreate(nodes: map<NodeRef, FsNode>, dir: NodeRef, name: string, r: NodeRef, kind: NodeKind,
                            data: NodeData): map<NodeRef, FsNode>
    requires dir in nodes && nodes[dir].data.RamDirectory?
  {
    nodes[dir := nodes[dir].(data := RamDirectory(nodes[dir].data.children[name := r]))]
         [r := FsNode(kind, 1, data)]
  }

  predicate IsNewNode(kind: NodeKind, data: NodeData) {
    (kind.RegularFile? && data == RamFile([])) || (kind.Directory? && data == RamDirectory(map[]))
  }

  lemma DataAfterCreate(nodes: map<NodeRef, FsNode>, ns: Namespace, dir: NodeRef, name: string, r: NodeRef,
                        kind: NodeKind, data: NodeData)
    requires ns.data == StableData(nodes) && IsNewNode(kind, data)
    requires dir in nodes && nodes[dir].data.RamDirectory? && r !in nodes
    ensures AddChild(ns, dir, name, r, data).data == StableData(NodesAfterCreate(nodes, dir, name, r, kind, data))
  {
  }

  /** The ramfs driver creating a child is the specification's creation. */
  lemma NodeCreated(w: World, loc: Locations, fs: FsSpec.Fs, p: EntryId, dir: NodeRef, name: string, kind: NodeKind,
                    data: NodeData)
    requires Represents(w, loc, fs) && p in w.cache.entries && p in loc
    requires dir == w.cache.entries[p].node && dir in w.nodes && w.nodes[dir].data.RamDirectory? && dir.mount in w.mounts
    requires FsInvariants.CanCreate(fs, loc[p], dir, name, data)
    requires IsNewNode(kind, data)
    ensures var r := NextNode(w.mounts, dir.mount);
            var nodes' := NodesAfterCreate(w.nodes, dir, name, r, kind, data);
            var fs' := FsSpec.Create(fs, dir, name, data);
            && Represents(w.(nodes := nodes', mounts := BumpNodeId(w.mounts, dir.mount)), loc, fs')
            && NodeAt(fs'.ns, loc[p] + [name]) == Some(ViewOf(nodes', r))
            && FsSpec.NewNode(fs, dir) == r
  {
    hide FsInvariants.Invariant, Coherent, EntriesLinked, MountsLinked, FilesLinked, Grows, NodeAt;
    var r := NextNode(w.mounts, dir.mount);
    var nodes', fs' := NodesAfterCreate(w.nodes, dir, name, r, kind, data), FsSpec.Create(fs, dir, name, data);
    EntryNode(w, loc, fs, p);
    NextNodeIsFresh(w, loc, fs, dir.mount);
    FsInvariants.CreateKeepsInvariant(fs, loc[p], dir, name, data);
    DataAfterCreate(w.nodes, fs.ns, dir, name, r, kind, data);
    NodesBumped(w.nodes, nodes', w.mounts, w.devices, dir.mount, r);
    EntriesKept(w.cache, w.nodes, nodes', loc, fs.ns, fs'.ns);
    MountsBumped(w.mounts, w.cache, loc, fs, fs', dir.mount);
    FilesKept(w.files, w.nodes, nodes', fs, fs', r);
  }

  // ---------------------------------------------------------------------
  // Mounting
  // ---------------------------------------------------------------------

  /** The state after a new file system is mounted. */
  function Mounted(w: World, parent: Option<EntryId>, name: string, kind: FsKind): World
    requires CanInsert(w.cache, parent, name)
  {
    var m := w.nextMount;
    w.(cache := Insert(w.cache, parent, RootNode(m), name),
       nodes := w.nodes[RootNode(m) := FsNode(Directory, 1, FsSpec.RootData(kind))],
       mounts := w.mounts[m := VfsMount(w.cache.next, FileSystem(kind, 1))],
       nextMount := m + 1)
  }

  /** Nothing belongs to the next mount yet. */
  lemma NextMountIsFresh(w: World, loc: Locations, fs: FsSpec.Fs)
    requires Represents(w, loc, fs)
    ensures w.nextMount !in w.mounts
    ensures forall r :: r in w.nodes ==> r.mount != w.nextMount
    ensures OpenOn(w.files, RootNode(w.nextMount)) == {}
  {
    var m := w.nextMount;
    forall x | x in w.mounts ensures x != m {
      MountIsLinked(w, loc, fs, x);
    }
    forall r | r in w.nodes ensures r.mount in w.mounts {
      assert NodeOk(w.nodes, w.mounts, w.devices, r);
    }
    forall fd | fd in w.files ensures w.files[fd].node in w.nodes {
      assert FileLinked(w.files, w.nodes, fs, fd);
    }
  }

  lemma NodesAfterMount(nodes: map<NodeRef, FsNode>, mounts: map<MountId, VfsMount>, devices: map<string, DeviceKind>,
                        fs: FsSpec.Fs, at: Location, kind: FsKind, root: EntryId)
    requires NodesLinked(nodes, mounts, devices, fs.ns) && fs.nextMount !in mounts
    requires forall r :: r in nodes ==> r.mount != fs.nextMount
    ensures NodesLinked(nodes[RootNode(fs.nextMount) := FsNode(Directory, 1, FsSpec.RootData(kind))],
                        mounts[fs.nextMount := VfsMount(root, FileSystem(kind, 1))],
                        devices, FsSpec.AddMount(fs, at, kind).ns)
  {
    var m := fs.nextMount;
    var nodes' := nodes[RootNode(m) := FsNode(Directory, 1, FsSpec.RootData(kind))];
    var mounts' := mounts[m := VfsMount(root, FileSystem(kind, 1))];
    forall r | r in nodes' ensures NodeOk(nodes', mounts', devices, r) {
      if r != RootNode(m) {
        assert NodeOk(nodes, mounts, devices, r);
      }
    }
    assert FsSpec.AddMount(fs, at, kind).ns.data == StableData(nodes');
  }

  lemma MountsAfterMount(mounts: map<MountId, VfsMount>, c: Cache, loc: Locations, fs: FsSpec.Fs, at: Location,
                         kind: FsKind, root: EntryId)
    requires MountsLinked(mounts, c, loc, fs) && fs.nextMount !in mounts
    requires NodeAt(fs.ns, at).None?
    requires root in c.handles && root in c.entries && c.entries[root].node == RootNode(fs.nextMount)
    requires root in loc && loc[root] == at
    ensures MountsLinked(mounts[fs.nextMount := VfsMount(root, FileSystem(kind, 1))], c, loc, FsSpec.AddMount(fs, at, kind))
  {
    var m, fs' := fs.nextMount, FsSpec.AddMount(fs, at, kind);
    var mounts' := mounts[m := VfsMount(root, FileSystem(kind, 1))];
    forall x | x in mounts' ensures MountLinked(mounts', c, loc, fs', x) {
      if x != m {
        assert MountLinked(mounts, c, loc, fs, x);
      }
    }
    forall l | l in fs'.ns.mountAt ensures LocationMounted(mounts', loc, fs'.ns, l) {
      if l != at {
        assert LocationMounted(mounts, loc, fs.ns, l);
      }
    }
  }

  lemma CacheAfterMount(w: World, loc: Locations, fs: FsSpec.Fs, fs': FsSpec.Fs, nodes': map<NodeRef, FsNode>,
                        parent: Option<EntryId>, name: string, at: Location, kind: FsKind)
    requires Represents(w, loc, fs) && CanInsert(w.cache, parent, name) && w.nextMount !in w.mounts
    requires Belongs(loc, parent, name, at) && NodeAt(fs.ns, at).None?
    requires fs' == FsSpec.AddMount(fs, at, kind) && Grows(fs.ns, fs'.ns)
    requires ViewsKept(w.nodes, nodes') && RootNode(w.nextMount) in nodes' && !nodes'[RootNode(w.nextMount)].data.Device?
    ensures var c' := Insert(w.cache, parent, RootNode(w.nextMount), name);
            && Coherent(c')
            && EntriesLinked(c', nodes', loc[w.cache.next := at], fs'.ns)
            && MountsLinked(w.mounts[w.nextMount := VfsMount(w.cache.next, FileSystem(kind, 1))], c', loc[w.cache.next := at], fs')
            && w.cache.next !in w.cache.entries
            && c'.next == w.cache.next + 1
  {
    if parent.Some? {
      assert EntryOk(w.cache, parent.value);
    }
    hide FsInvariants.Invariant, NodesLinked, EntriesLinked, MountsLinked, FilesLinked, Shape, Counted, NodeAt, Grows,
         ViewsKept, CanInsert, Insert, Belongs;
    var r, id := RootNode(w.nextMount), w.cache.next;
    var c' := Insert(w.cache, parent, r, name);
    InsertKeeps(w.cache, parent, r, name);
    EntriesKept(w.cache, w.nodes, nodes', loc, fs.ns, fs'.ns);
    MountAddsRoot(fs.ns, at, w.nextMount, FsSpec.RootData(kind));
    EntriesAfterInsert(w.cache, nodes', loc, fs'.ns, parent, r, name, at);
    MountsAfterInsert(w.mounts, w.cache, loc, fs, parent, r, name, at);
    MountsAfterMount(w.mounts, c', loc[id := at], fs, at, kind, id);
  }

  /** Mounting is the specification's mounting. */
  lemma FileSystemMounted(w: World, loc: Locations, fs: FsSpec.Fs, parent: Option<EntryId>, name: string,
                          at: Location, kind: FsKind)
    requires Represents(w, loc, fs) && CanInsert(w.cache, parent, name)
    requires Belongs(loc, parent, name, at) && NodeAt(fs.ns, at).None?
    requires at != [] ==> DirectoryAt(fs.ns, Parent(at))
    ensures Represents(Mounted(w, parent, name, kind), loc[w.cache.next := at], FsSpec.AddMount(fs, at, kind))
    ensures w.cache.next !in w.cache.entries
  {
    hide FsInvariants.Invariant, NodesLinked, EntriesLinked, MountsLinked, FilesLinked, Coherent, NodeAt, Grows,
         CanInsert, Insert, Belongs, DirectoryAt;
    var w', fs' := Mounted(w, parent, name, kind), FsSpec.AddMount(fs, at, kind);
    FsInvariants.MountKeepsInvariant(fs, at, kind);
    NextMountIsFresh(w, loc, fs);
    NodesAfterMount(w.nodes, w.mounts, w.devices, fs, at, kind, w.cache.next);
    CacheAfterMount(w, loc, fs, fs', w'.nodes, parent, name, at, kind);
    FilesKept(w.files, w.nodes, w'.nodes, fs, fs', RootNode(w.nextMount));
  }

  lemma MountAddsRoot(ns: Namespace, at: Location, m: MountId, data: NodeData)
    ensures NodeAt(MountRoot(ns, at, m, data), at) == Some(Stable(RootNode(m)))
  {
  }

  // ---------------------------------------------------------------------
  // Descriptors
  // ---------------------------------------------------------------------

  function WithLinks(nodes: map<NodeRef, FsNode>, r: NodeRef, links: nat): map<NodeRef, FsNode>
    requires r in nodes
  {
    nodes[r := nodes[r].(links := links)]
  }

  lemma NodesAfterLinks(nodes: map<NodeRef, FsNode>, mounts: map<MountId, VfsMount>, devices: map<string, DeviceKind>,
                        ns: Namespace, r: NodeRef, links: nat)
    requires NodesLinked(nodes, mounts, devices, ns) && r in nodes
    ensures NodesLinked(WithLinks(nodes, r, links), mounts, devices, ns)
  {
    var nodes' := WithLinks(nodes, r, links);
    assert StableData(nodes') == StableData(nodes);
    forall x | x in nodes' ensures NodeOk(nodes', mounts, devices, x) {
      assert NodeOk(nodes, mounts, devices, x);
    }
  }

  /** Link counts do not show in the specification; only descriptors depend on them. */
  lemma LinksChanged(w: World, loc: Locations, fs: FsSpec.Fs, fs': FsSpec.Fs, w': World, r: NodeRef, links: nat)
    requires Represents(w, loc, fs) && r in w.nodes
    requires w' == w.(nodes := WithLinks(w.nodes, r, links), files := w'.files, nextFd := fs'.nextFd)
    requires fs' == fs.(files := fs'.files, nextFd := fs'.nextFd)
    requires FsInvariants.Invariant(fs') && FilesLinked(w'.files, w'.nodes, fs')
    ensures Represents(w', loc, fs')
  {
    hide FsInvariants.Invariant, Coherent, NodesLinked, EntriesLinked, MountsLinked, FilesLinked;
    NodesAfterLinks(w.nodes, w.mounts, w.devices, fs.ns, r, links);
    EntriesKept(w.cache, w.nodes, w'.nodes, loc, fs.ns, fs'.ns);
    MountsSame(w.mounts, w.cache, loc, fs, fs');
  }

  lemma NextFdIsFree(w: World, loc: Locations, fs: FsSpec.Fs)
    requires Represents(w, loc, fs)
    ensures w.nextFd !in w.files && w.nextFd == fs.nextFd
  {
    assert forall fd :: fd in fs.files ==> fd < fs.nextFd;
  }

  lemma FileOpened(w: World, loc: Locations, fs: FsSpec.Fs, r: NodeRef, mode: FileMode)
    requires Represents(w, loc, fs) && r in w.nodes
    requires FsInvariants.FileOk(fs.ns, FsSpec.OpenFile(ViewOf(w.nodes, r), mode, 0))
    ensures var fs' := FsSpec.OpenNode(fs, ViewOf(w.nodes, r), mode, None).0;
            Represents(w.(nodes := WithLinks(w.nodes, r, w.nodes[r].links + 1),
                          files := w.files[w.nextFd := File(r, mode, 0)],
                          nextFd := w.nextFd + 1), loc, fs')
  {
    hide FsInvariants.Invariant, Coherent, NodesLinked, EntriesLinked, MountsLinked, FilesLinked;
    var v := ViewOf(w.nodes, r);
    var fs' := FsSpec.OpenNode(fs, v, mode, None).0;
    FsInvariants.OpenNodeKeeps(fs, v, mode, None);
    var files', nodes' := w.files[w.nextFd := File(r, mode, 0)], WithLinks(w.nodes, r, w.nodes[r].links + 1);
    NextFdIsFree(w, loc, fs);
    FilesAfterOpen(w.files, w.nodes, fs, fs', w.nextFd, r, mode);
    LinksChanged(w, loc, fs, fs', w.(nodes := nodes', files := files', nextFd := w.nextFd + 1), r, w.nodes[r].links + 1);
  }

  lemma FilesAfterOpen(files: map<FileDescriptor, File>, nodes: map<NodeRef, FsNode>, fs: FsSpec.Fs, fs': FsSpec.Fs,
                       fd: FileDescriptor, r: NodeRef, mode: FileMode)
    requires FilesLinked(files, nodes, fs) && r in nodes && fd !in files
    requires fs'.files == fs.files[fd := FsSpec.OpenFile(ViewOf(nodes, r), mode, 0)]
    ensures FilesLinked(files[fd := File(r, mode, 0)], WithLinks(nodes, r, nodes[r].links + 1), fs')
  {
    var files', nodes' := files[fd := File(r, mode, 0)], WithLinks(nodes, r, nodes[r].links + 1);
    forall x | x in files' ensures FileLinked(files', nodes', fs', x) {
      if x != fd {
        assert FileLinked(files, nodes, fs, x);
      }
    }
    forall x | x in nodes' ensures LinksOk(files', nodes', x) {
      assert LinksOk(files, nodes, x);
      if x == r {
        assert OpenOn(files', x) == OpenOn(files, x) + {fd};
      } else {
        assert OpenOn(files', x) == OpenOn(files, x);
      }
    }
  }

  lemma OpenOnAfterClose(files: map<FileDescriptor, File>, fd: FileDescriptor, x: NodeRef)
    requires fd in files
    ensures |OpenOn(files, x)| == |OpenOn(files - {fd}, x)| + if files[fd].node == x then 1 else 0
  {
    if files[fd].node == x {
      assert OpenOn(files, x) == OpenOn(files - {fd}, x) + {fd};
    } else {
      assert OpenOn(files - {fd}, x) == OpenOn(files, x);
    }
  }

  lemma FilesAfterClose(files: map<FileDescriptor, File>, nodes: map<NodeRef, FsNode>, fs: FsSpec.Fs, fs': FsSpec.Fs,
                        fd: FileDescriptor)
    requires FilesLinked(files, nodes, fs) && fd in files
    requires fs'.files == fs.files - {fd}
    ensures files[fd].node in nodes && nodes[files[fd].node].links > 1
    ensures FilesLinked(files - {fd}, WithLinks(nodes, files[fd].node, nodes[files[fd].node].links - 1), fs')
  {
    hide OpenOn;
    var r := files[fd].node;
    assert FileLinked(files, nodes, fs, fd);
    assert LinksOk(files, nodes, r);
    OpenOnAfterClose(files, fd, r);
    var files', nodes' := files - {fd}, WithLinks(nodes, r, nodes[r].links - 1);
    forall x | x in files' ensures FileLinked(files', nodes', fs', x) {
      assert FileLinked(files, nodes, fs, x);
    }
    forall x | x in nodes' ensures LinksOk(files', nodes', x) {
      assert LinksOk(files, nodes, x);
      OpenOnAfterClose(files, fd, x);
    }
  }

  /** The decrement never underflows: the count of an open node is above one. */
  lemma FileClosed(w: World, loc: Locations, fs: FsSpec.Fs, fd: FileDescriptor)
    requires Represents(w, loc, fs) && fd in w.files
    ensures w.files[fd].node in w.nodes && w.nodes[w.files[fd].node].links > 1
    ensures var r := w.files[fd].node;
            Represents(w.(nodes := WithLinks(w.nodes, r, w.nodes[r].links - 1), files := w.files - {fd}),
                       loc, FsSpec.Close(fs, fd, None).0)
  {
    hide FsInvariants.Invariant, Coherent, NodesLinked, EntriesLinked, MountsLinked;
    var fs' := FsSpec.Close(fs, fd, None).0;
    FilesAfterClose(w.files, w.nodes, fs, fs', fd);
    var r := w.files[fd].node;
    FsInvariants.StepKeeps(fs, FsSpec.CloseOp(fd, None));
    LinksChanged(w, loc, fs, fs', w.(nodes := WithLinks(w.nodes, r, w.nodes[r].links - 1), files := w.files - {fd}),
                 r, w.nodes[r].links - 1);
  }

  /** What a descriptor refers to, as read and write find it. */
  lemma FileNode(w: World, loc: Locations, fs: FsSpec.Fs, fd: FileDescriptor)
    requires Represents(w, loc, fs) && fd in w.files
    ensures var f := w.files[fd];
            && f.node in w.nodes
            && NodeOk(w.nodes, w.mounts, w.devices, f.node)
            && fd in fs.files
            && fs.files[fd] == FsSpec.OpenFile(ViewOf(w.nodes, f.node), f.mode, f.position)
            && (w.nodes[f.node].kind.Directory? <==> IsDirectory(fs.ns, ViewOf(w.nodes, f.node)))
            && (w.nodes[f.node].data.RamFile? ==> f.position <= |w.nodes[f.node].data.bytes|)
  {
    assert FileLinked(w.files, w.nodes, fs, fd);
    assert NodeOk(w.nodes, w.mounts, w.devices, w.files[fd].node);
    assert FsInvariants.FileOk(fs.ns, fs.files[fd]);
  }

  function MovedBy(files: map<FileDescriptor, File>, fd: FileDescriptor, n: nat): map<FileDescriptor, File>
    requires fd in files
  {
    files[fd := files[fd].(position := files[fd].position + n)]
  }

  lemma FilesAfterMove(files: map<FileDescriptor, File>, nodes: map<NodeRef, FsNode>, fs: FsSpec.Fs, fs': FsSpec.Fs,
                       fd: FileDescriptor, n: nat)
    requires FilesLinked(files, nodes, fs) && fd in files && fd in fs.files
    requires fs'.files == FsSpec.Advance(fs, fd, n).files
    ensures FilesLinked(MovedBy(files, fd, n), nodes, fs')
  {
    var files' := MovedBy(files, fd, n);
    forall x | x in files' ensures FileLinked(files', nodes, fs', x) {
      assert FileLinked(files, nodes, fs, x);
    }
    forall x | x in nodes ensures LinksOk(files', nodes, x) {
      assert LinksOk(files, nodes, x);
      assert OpenOn(files', x) == OpenOn(files, x);
    }
  }

  /** An offset advances by what was transferred. */
  lemma PositionMoved(w: World, loc: Locations, fs: FsSpec.Fs, fs': FsSpec.Fs, fd: FileDescriptor, n: nat)
    requires Represents(w, loc, fs) && fd in w.files && fd in fs.files
    requires fs' == FsSpec.Advance(fs, fd, n) && FsInvariants.Invariant(fs')
    ensures Represents(w.(files := MovedBy(w.files, fd, n)), loc, fs')
  {
    hide FsInvariants.Invariant, Coherent, NodesLinked, EntriesLinked;
    FilesAfterMove(w.files, w.nodes, fs, fs', fd, n);
    MountsSame(w.mounts, w.cache, loc, fs, fs');
  }

  lemma MountsSame(mounts: map<MountId, VfsMount>, c: Cache, loc: Locations, fs: FsSpec.Fs, fs': FsSpec.Fs)
    requires MountsLinked(mounts, c, loc, fs)
    requires fs'.ns.mountAt == fs.ns.mountAt && fs'.nextMount == fs.nextMount && fs'.nextNode == fs.nextNode
    ensures MountsLinked(mounts, c, loc, fs')
  {
    forall m | m in mounts ensures MountLinked(mounts, c, loc, fs', m) {
      assert MountLinked(mounts, c, loc, fs, m);
    }
    forall l | l in fs'.ns.mountAt ensures LocationMounted(mounts, loc, fs'.ns, l) {
      assert LocationMounted(mounts, loc, fs.ns, l);
    }
  }

  /** A ramfs file's bytes are replaced and the writing offset advances. */
  lemma FileWritten(w: World, loc: Locations, fs: FsSpec.Fs, fs': FsSpec.Fs, fd: FileDescriptor, r: NodeRef,
                    bytes: seq<byte>, n: nat)
    requires Represents(w, loc, fs) && fd in w.files && fd in fs.files
    requires r in w.nodes && w.nodes[r].data.RamFile?
    requires fs' == FsSpec.Advance(fs.(ns := fs.ns.(data := fs.ns.data[r := RamFile(bytes)])), fd, n)
    requires FsInvariants.Invariant(fs')
    ensures Represents(w.(nodes := w.nodes[r := w.nodes[r].(data := RamFile(bytes))], files := MovedBy(w.files, fd, n)), loc, fs')
  {
    hide FsInvariants.Invariant, Coherent, NodesLinked, EntriesLinked, MountsLinked, FilesLinked;
    var nodes' := w.nodes[r := w.nodes[r].(data := RamFile(bytes))];
    RewriteKeepsData(w.nodes, w.mounts, w.devices, fs.ns, r, bytes);
    EntriesKept(w.cache, w.nodes, nodes', loc, fs.ns, fs'.ns);
    MountsSame(w.mounts, w.cache, loc, fs, fs');
    FilesAfterRewrite(w.files, w.nodes, nodes', fs);
    FilesAfterMove(w.files, nodes', fs, fs', fd, n);
  }

  lemma RewriteKeepsData(nodes: map<NodeRef, FsNode>, mounts: map<MountId, VfsMount>,
                         devices: map<string, DeviceKind>, ns: Namespace, r: NodeRef, bytes: seq<byte>)
    requires NodesLinked(nodes, mounts, devices, ns) && r in nodes && nodes[r].data.RamFile?
    ensures var ns' := ns.(data := ns.data[r := RamFile(bytes)]);
            NodesLinked(nodes[r := nodes[r].(data := RamFile(bytes))], mounts, devices, ns') && Grows(ns, ns')
  {
    var nodes' := nodes[r := nodes[r].(data := RamFile(bytes))];
    assert ns.data[r := RamFile(bytes)] == StableData(nodes');
    forall x | x in nodes' ensures NodeOk(nodes', mounts, devices, x) {
      assert NodeOk(nodes, mounts, devices, x);
    }
  }

  lemma FilesAfterRewrite(files: map<FileDescriptor, File>, nodes: map<NodeRef, FsNode>, nodes': map<NodeRef, FsNode>,
                          fs: FsSpec.Fs)
    requires FilesLinked(files, nodes, fs) && ViewsKept(nodes, nodes') && nodes'.Keys == nodes.Keys
    requires forall x :: x in nodes ==> nodes'[x].links == nodes[x].links
    ensures FilesLinked(files, nodes', fs)
  {
    forall fd | fd in files ensures FileLinked(files, nodes', fs, fd) {
      assert FileLinked(files, nodes, fs, fd);
    }
    forall x | x in nodes' ensures LinksOk(files, nodes', x) {
      assert LinksOk(files, nodes, x);
    }
  }
}
