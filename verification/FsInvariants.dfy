/**
  What every run of the specification keeps: the namespace is a tree, ids not
  handed out are unused, and descriptors point at nodes and offsets that exist.
 */
module FsInvariants {
  import opened FsTypes
  import opened Namespace
  import opened FsSpec

  /** Ids not handed out yet are unused. */
  ghost predicate IdsFresh(fs: Fs) {
    && (forall r :: r in fs.ns.data ==> r.mount < fs.nextMount && !fs.ns.data[r].Device?)
    && (forall r :: r in fs.ns.data && r.mount in fs.nextNode ==> r.id < fs.nextNode[r.mount])
    && (forall r :: r in fs.ns.data && !fs.ns.data[r].NoData? ==> r.mount in fs.nextNode)
    && (forall m :: m in fs.nextNode ==> m < fs.nextMount && fs.nextNode[m] > 0)
    && (forall l :: l in fs.ns.mountAt ==> fs.ns.mountAt[l] < fs.nextMount)
    && (forall l :: l in fs.ns.mountAt ==> [] in fs.ns.mountAt)
  }

  /** A descriptor leads to a node that exists; a ramfs offset lies inside the file. */
  predicate FileOk(ns: Namespace, f: OpenFile) {
    match f.view
    case Stable(r) => r in ns.data && (ns.data[r].RamFile? ==> f.position <= |ns.data[r].bytes|)
    case DeviceNode(_, name) => name in ns.devices
  }

  ghost predicate FilesOk(fs: Fs) {
    forall fd :: fd in fs.files ==> 0 < fd < fs.nextFd && FileOk(fs.ns, fs.files[fd])
  }

  ghost predicate Invariant(fs: Fs) {
    && WellFormed(fs.ns)
    && TreeShaped(fs.ns)
    && IdsFresh(fs)
    && FilesOk(fs)
    && fs.nextFd > 0
  }

  // ---------------------------------------------------------------------
  // The two ways the tree grows
  // ---------------------------------------------------------------------

  /** Where a failed resolution and a successful parent walk lead: a directory
      in which the name is free, both in the driver and in the mount table. */
  lemma CreationTarget(fs: Fs, path: string)
    requires Invariant(fs)
    requires Resolve(fs.ns, path) == Ok(None) && ResolveParent(fs.ns, path).Ok?
    ensures var (dir, name) := ResolveParent(fs.ns, path).value;
            && DirectoryAt(fs.ns, dir)
            && NodeAt(fs.ns, dir + [name]).None?
            && Parent(dir + [name]) == dir
            && Last(dir + [name]) == name
  {
    var segments := Segments(fs.ns, path).value;
    assert IsDirectory(fs.ns, Stable(RootNode(fs.ns.mountAt[[]])));
    assert DirectoryAt(fs.ns, []);
    CreationNeverClobbers(fs.ns, segments);
  }

  /** A creator at `dir`, in which `name` is free, can make a node with this data. */
  ghost predicate CanCreate(fs: Fs, dir: Location, d: NodeRef, name: string, data: NodeData) {
    && NodeAt(fs.ns, dir) == Some(Stable(d))
    && Creator(fs, d)
    && NodeAt(fs.ns, dir + [name]).None?
    && (data == RamFile([]) || data == RamDirectory(map[]))
  }

  lemma CreationAllowed(fs: Fs, dir: Location, d: NodeRef, name: string, data: NodeData)
    requires Invariant(fs) && CanCreate(fs, dir, d, name, data)
    ensures CanAddChild(fs.ns, dir + [name], d, NewNode(fs, d), data)
    ensures Last(dir + [name]) == name
  {
    assert Parent(dir + [name]) == dir;
  }

  lemma CreateKeepsInvariant(fs: Fs, dir: Location, d: NodeRef, name: string, data: NodeData)
    requires Invariant(fs) && CanCreate(fs, dir, d, name, data)
    ensures Invariant(Create(fs, d, name, data))
    ensures Grows(fs.ns, Create(fs, d, name, data).ns)
    ensures NodeAt(Create(fs, d, name, data).ns, dir + [name]) == Some(Stable(NewNode(fs, d)))
  {
    hide NodeAt, WellFormed, TreeShaped;
    var at, r := dir + [name], NewNode(fs, d);
    CreationAllowed(fs, dir, d, name, data);
    AddChildKeepsTree(fs.ns, at, d, r, data);
    AddChildGrows(fs.ns, at, d, r, data);
    AddChildAddsExactlyOne(fs.ns, at, d, r, data, at);
    GrowthKeepsFiles(fs, Create(fs, d, name, data));
  }

  lemma GrowthKeepsFiles(fs: Fs, fs': Fs)
    requires FilesOk(fs) && fs'.files == fs.files && fs'.nextFd == fs.nextFd
    requires Grows(fs.ns, fs'.ns)
    requires forall r :: r in fs.ns.data && fs.ns.data[r].RamFile? ==> fs'.ns.data[r] == fs.ns.data[r]
    ensures FilesOk(fs')
  {
    forall fd | fd in fs'.files
      ensures FileOk(fs'.ns, fs'.files[fd])
    {
      assert FileOk(fs.ns, fs.files[fd]);
      if fs.files[fd].view.Stable? {
        var r := fs.files[fd].view.node;
        assert DataGrows(fs.ns.data[r], fs'.ns.data[r]);
      }
    }
  }

  /** Nothing exists before a root is mounted. */
  lemma {:induction false} RootIsMounted(fs: Fs, l: Location)
    requires IdsFresh(fs) && NodeAt(fs.ns, l).Some?
    ensures [] in fs.ns.mountAt
    decreases |l|
  {
    if l !in fs.ns.mountAt {
      RootIsMounted(fs, Parent(l));
    }
  }

  lemma MountKeepsIds(fs: Fs, at: Location, kind: FsKind)
    requires Invariant(fs) && NodeAt(fs.ns, at).None?
    requires at != [] ==> DirectoryAt(fs.ns, Parent(at))
    ensures CanMount(fs.ns, at, fs.nextMount, RootData(kind))
    ensures IdsFresh(AddMount(fs, at, kind))
    ensures forall r :: r in fs.ns.data ==> AddMount(fs, at, kind).ns.data[r] == fs.ns.data[r]
  {
    if at != [] {
      RootIsMounted(fs, Parent(at));
    }
  }

  lemma MountKeepsInvariant(fs: Fs, at: Location, kind: FsKind)
    requires Invariant(fs) && NodeAt(fs.ns, at).None?
    requires at != [] ==> DirectoryAt(fs.ns, Parent(at))
    ensures CanMount(fs.ns, at, fs.nextMount, RootData(kind))
    ensures Invariant(AddMount(fs, at, kind))
    ensures Grows(fs.ns, AddMount(fs, at, kind).ns)
  {
    MountKeepsIds(fs, at, kind);
    hide NodeAt, WellFormed, TreeShaped, IdsFresh, Grows;
    var m, data := fs.nextMount, RootData(kind);
    MountKeepsTree(fs.ns, at, m, data);
    MountGrows(fs.ns, at, m, data);
    GrowthKeepsFiles(fs, AddMount(fs, at, kind));
  }

  // ---------------------------------------------------------------------
  // Every call keeps the invariant
  // ---------------------------------------------------------------------

  lemma OpenNodeKeeps(fs: Fs, v: View, mode: FileMode, hook: Option<IoError>)
    requires Invariant(fs) && FileOk(fs.ns, OpenFile(v, mode, 0))
    ensures Invariant(OpenNode(fs, v, mode, hook).0)
  {
  }

  lemma WhatIsThereCanBeOpened(ns: Namespace, l: Location, mode: FileMode)
    requires WellFormed(ns) && NodeAt(ns, l).Some?
    ensures FileOk(ns, OpenFile(NodeAt(ns, l).value, mode, 0))
  {
  }

  lemma FindOrCreateKeeps(fs: Fs, path: string, mode: FileMode)
    requires Invariant(fs)
    ensures var (fs', v) := FindOrCreate(fs, path, mode);
            Invariant(fs') && (v.Ok? ==> FileOk(fs'.ns, OpenFile(v.value, mode, 0)))
  {
    hide NodeAt, WellFormed, TreeShaped, Walk, ParentWalk, Segments;
    var r := Resolve(fs.ns, path);
    if r.Ok? {
      if r.value.Some? {
        if NodeAt(fs.ns, r.value.value).Some? {
          WhatIsThereCanBeOpened(fs.ns, r.value.value, mode);
        }
      } else if mode.IsMutating() && ResolveParent(fs.ns, path).Ok? {
        var (dir, name) := ResolveParent(fs.ns, path).value;
        CreationTarget(fs, path);
        var d := CreatorAt(fs, dir);
        if d.Some? {
          CreateKeepsInvariant(fs, dir, d.value, name, RamFile([]));
        }
      }
    }
  }

  lemma OpenKeeps(fs: Fs, path: string, mode: FileMode, hook: Option<IoError>)
    requires Invariant(fs)
    ensures Invariant(Open(fs, path, mode, hook).0)
  {
    hide FindOrCreate, Invariant, FileOk;
    FindOrCreateKeeps(fs, path, mode);
    var (fs1, v) := FindOrCreate(fs, path, mode);
    if v.Ok? {
      OpenNodeKeeps(fs1, v.value, mode, hook);
    }
  }

  lemma CreateDirectoryKeeps(fs: Fs, path: string)
    requires Invariant(fs)
    ensures Invariant(CreateDirectory(fs, path).0)
  {
    if Resolve(fs.ns, path) == Ok(None) && ResolveParent(fs.ns, path).Ok? {
      var (dir, name) := ResolveParent(fs.ns, path).value;
      CreationTarget(fs, path);
      var d := CreatorAt(fs, dir);
      if d.Some? {
        CreateKeepsInvariant(fs, dir, d.value, name, RamDirectory(map[]));
      }
    }
  }

  lemma MountKeeps(fs: Fs, source: string, target: string, kind: Option<string>)
    requires Invariant(fs)
    ensures Invariant(Mount(fs, source, target, kind).0)
  {
    if kind.Some? && FindFsKind(kind.value).Some? {
      if target == "/" {
        if [] !in fs.ns.mountAt {
          MountKeepsInvariant(fs, [], FindFsKind(kind.value).value);
        }
      } else if Resolve(fs.ns, target) == Ok(None) && ResolveParent(fs.ns, target).Ok? {
        var (dir, name) := ResolveParent(fs.ns, target).value;
        CreationTarget(fs, target);
        MountKeepsInvariant(fs, dir + [name], FindFsKind(kind.value).value);
      }
    }
  }

  lemma ReadKeeps(fs: Fs, fd: FileDescriptor, size: nat)
    requires Invariant(fs)
    ensures Invariant(ReadFile(fs, fd, size).0)
  {
    if fd in fs.files {
      assert FileOk(fs.ns, fs.files[fd]);
    }
  }

  lemma WriteKeepsNodes(ns: Namespace, r: NodeRef, bytes: seq<byte>, l: Location)
    requires r in ns.data && ns.data[r].RamFile?
    ensures NodeAt(ns.(data := ns.data[r := RamFile(bytes)]), l) == NodeAt(ns, l)
    ensures DirectoryAt(ns.(data := ns.data[r := RamFile(bytes)]), l) <==> DirectoryAt(ns, l)
    decreases |l|
  {
    if l !in ns.mountAt && l != [] {
      WriteKeepsNodes(ns, r, bytes, Parent(l));
    }
  }

  lemma WriteKeepsTree(ns: Namespace, r: NodeRef, bytes: seq<byte>)
    requires WellFormed(ns) && TreeShaped(ns) && r in ns.data && ns.data[r].RamFile?
    ensures WellFormed(ns.(data := ns.data[r := RamFile(bytes)])) && TreeShaped(ns.(data := ns.data[r := RamFile(bytes)]))
  {
    hide NodeAt;
    var ns' := ns.(data := ns.data[r := RamFile(bytes)]);
    forall l | l in ns'.mountAt && l != []
      ensures MountHangs(ns', l)
    {
      assert MountHangs(ns, l);
      WriteKeepsNodes(ns, r, bytes, Parent(l));
    }
    assert forall d, n :: HasChild(ns', d, n) ==> HasChild(ns, d, n) && Child(ns', d, n) == Child(ns, d, n);
  }

  lemma FileIsOk(fs: Fs, fd: FileDescriptor)
    requires Invariant(fs) && fd in fs.files
    ensures FileOk(fs.ns, fs.files[fd])
    ensures var v := fs.files[fd].view; v.Stable? ==> !fs.ns.data[v.node].Device?
  {
    hide WellFormed, TreeShaped;
  }

  lemma WriteKeeps(fs: Fs, fd: FileDescriptor, buffer: seq<byte>)
    requires Invariant(fs)
    ensures Invariant(WriteFile(fs, fd, buffer).0)
  {
    hide WellFormed, TreeShaped;
    if fd in fs.files && fs.files[fd].view.Stable? {
      FileIsOk(fs, fd);
      var r := fs.files[fd].view.node;
      if fs.ns.data[r].RamFile? {
        WriteKeepsTree(fs.ns, r, Splice(fs.ns.data[r].bytes, fs.files[fd].position, buffer));
      }
    }
  }

  lemma StepKeeps(fs: Fs, op: Op)
    requires Invariant(fs)
    ensures Invariant(Step(fs, op).0)
  {
    match op
    case MountOp(source, target, kind) => MountKeeps(fs, source, target, kind);
    case OpenOp(path, mode, hook) => OpenKeeps(fs, path, mode, hook);
    case MkdirOp(path) => CreateDirectoryKeeps(fs, path);
    case ReadOp(fd, size) => ReadKeeps(fs, fd, size);
    case WriteOp(fd, buffer) => WriteKeeps(fs, fd, buffer);
    case _ =>
  }

  /** Every run from the empty file system keeps the invariant. */
  lemma {:induction false} RunKeeps(fs: Fs, ops: seq<Op>)
    requires Invariant(fs)
    ensures Invariant(Run(fs, ops).0)
    decreases |ops|
  {
    if ops != [] {
      StepKeeps(fs, ops[0]);
      if !IsPanic(Step(fs, ops[0]).1) {
        RunKeeps(Step(fs, ops[0]).0, ops[1..]);
      }
    }
  }

  /** A directory lists exactly the names that resolve one step from it, each as
      the node found there. */
  lemma ListingAgreesWithLookup(ns: Namespace, loc: Location, n: string)
    requires WellFormed(ns) && DirectoryAt(ns, loc)
    ensures n in Listing(ns, loc) <==> NodeAt(ns, loc + [n]).Some?
    ensures n in Listing(ns, loc) ==> Listing(ns, loc)[n] == ListedAs(ns, NodeAt(ns, loc + [n]).value)
    ensures WalkStep(ns, loc, n).Found? <==> n in Listing(ns, loc) || IsDots(n)
  {
    var at := loc + [n];
    assert Parent(at) == loc && Last(at) == n;
    if at in ns.mountAt {
      assert n in Names(ns, loc);
    }
    if n in Names(ns, loc) && n !in DriverNames(ns, NodeAt(ns, loc).value) {
      var l :| l in ns.mountAt && l != [] && Parent(l) == loc && Last(l) == n;
      assert l == Parent(l) + [Last(l)];
    }
  }
}
