/**
  What the calls of the virtual file system promise in terms of the cacheless
  specification, and the steps of the proofs that they keep these promises.
 */
module VfsRefinement {
  import opened FsTypes
  import opened Namespace
  import opened CacheSpec
  import opened VfsState
  import FsSpec
  import FsInvariants

  /** What a directory listing records of a name. */
  datatype DirectoryIterationEntry = DirectoryIterationEntry(id: nat, kind: NodeKind)

  type DirectoryIterationContext = map<string, DirectoryIterationEntry>

  /** How a walk fared with one segment. */
  datatype Progress = Moved | NotThere | Blocked

  /** The buffer starts with these bytes and is otherwise as it was. */
  ghost predicate Filled(was: seq<byte>, is_: seq<byte>, bytes: seq<byte>) {
    |bytes| <= |was| && is_ == bytes + was[|bytes|..]
  }

  ghost predicate Delivers(was: seq<byte>, is_: seq<byte>, spec: Outcome<seq<byte>>, r: Outcome<nat>) {
    match spec
    case Ok(bytes) => r == Ok(|bytes|) && Filled(was, is_, bytes)
    case Err(x) => r == Err(x) && is_ == was
    case Panic => r.Panic? && is_ == was
  }

  /** The outcome of a resolution is the specification's: the same error,
      nothing, or an entry made for the location found. */
  ghost predicate Resolves(loc: Locations, spec: Outcome<Option<Location>>, r: Outcome<Option<EntryId>>) {
    match spec
    case Ok(None) => r == Ok(None)
    case Ok(Some(l)) => r.Ok? && r.value.Some? && r.value.value in loc && loc[r.value.value] == l
    case Err(x) => r == Err(x)
    case Panic => r.Panic?
  }

  ghost predicate ResolvesParent(loc: Locations, spec: Outcome<(Location, string)>, r: Outcome<(EntryId, string)>) {
    match spec
    case Ok((l, n)) => r.Ok? && r.value.1 == n && r.value.0 in loc && loc[r.value.0] == l
    case Err(x) => r == Err(x)
    case Panic => r.Panic?
  }

  /** The handles held after a resolution: one more if it found an entry. */
  ghost function Holding(handles: multiset<EntryId>, r: Outcome<Option<EntryId>>): multiset<EntryId> {
    if r.Ok? && r.value.Some? then handles + multiset{r.value.value} else handles
  }

  ghost predicate Later(mounts: map<MountId, VfsMount>, mounts': map<MountId, VfsMount>, loc: Locations,
                        loc': Locations) {
    SameRoots(mounts, mounts') && LocGrows(loc, loc')
  }

  lemma LaterIsReflexive(mounts: map<MountId, VfsMount>, loc: Locations)
    ensures Later(mounts, mounts, loc, loc)
  {
  }

  lemma LaterIsTransitive(m0: map<MountId, VfsMount>, m1: map<MountId, VfsMount>, m2: map<MountId, VfsMount>,
                          l0: Locations, l1: Locations, l2: Locations, held: multiset<EntryId>)
    requires Later(m0, m1, l0, l1) && Later(m1, m2, l1, l2) && RootsIn(m1, held)
    ensures Later(m0, m2, l0, l2) && RootsIn(m2, held)
  {
  }

  ghost predicate LocGrows(loc: Locations, loc': Locations) {
    forall e :: e in loc ==> e in loc' && loc'[e] == loc[e]
  }

  /** A walk that has stopped stays stopped. */
  ghost function Stopped(progress: Progress, rest: WalkResult): WalkResult {
    match progress
    case Moved => rest
    case NotThere => Missing
    case Blocked => NotDirectory
  }

  lemma StopsLike(progress: Progress, step: WalkResult)
    ensures progress.Moved? ==> Stopped(progress, step) == step
    ensures progress.NotThere? ==> Stopped(progress, step) == Missing
    ensures progress.Blocked? ==> Stopped(progress, step) == NotDirectory
  {
  }

  lemma StartOfWalk(ns: Namespace, loc: Locations, root: EntryId, segments: seq<string>)
    requires root in loc && loc[root] == []
    ensures IsStack(loc, [root], [])
    ensures Walk(ns, [], segments) == Stopped(Moved, Walk(ns, [], segments[0..]))
    ensures segments != [] ==> ParentWalk(ns, [], segments) == ParentRest(Moved, ns, [], segments, 0)
  {
    assert segments[0..] == segments;
  }

  lemma WalkUnfolds(ns: Namespace, at: Location, segments: seq<string>, i: nat)
    requires i <= |segments|
    ensures i == |segments| ==> Walk(ns, at, segments[i..]) == Found(at)
    ensures i < |segments| ==>
              var step := WalkStep(ns, at, segments[i]);
              Walk(ns, at, segments[i..]) == if step.Found? then Walk(ns, step.loc, segments[i + 1..]) else step
  {
    if i < |segments| {
      assert segments[i..][0] == segments[i] && segments[i..][1..] == segments[i + 1..];
    }
  }

  /** How the parent walk fares with the node at a location. */
  ghost function ParentProgress(ns: Namespace, at: Location): Progress {
    if NodeAt(ns, at).None? then NotThere else if !DirectoryAt(ns, at) then Blocked else Moved
  }

  ghost function ParentStopped(progress: Progress, dots: bool, at: Location,
                               segments: seq<string>): Outcome<(Location, string)>
    requires segments != []
  {
    match progress
    case NotThere => Err(EntryNotFound)
    case Blocked => Err(NotADirectory)
    case Moved => if dots then Panic else Ok((at, segments[|segments| - 1]))
  }

  /** What is left of a parent walk. */
  ghost function ParentRest(progress: Progress, ns: Namespace, at: Location, segments: seq<string>,
                            i: nat): Outcome<(Location, string)>
    requires i < |segments|
  {
    if progress.Moved? then ParentWalk(ns, at, segments[i..]) else ParentStopped(progress, false, at, segments)
  }

  lemma ParentRestStep(progress: Progress, ns: Namespace, at: Location, segments: seq<string>, i: nat)
    requires i < |segments| - 1 && !IsDots(segments[i]) && progress == ParentProgress(ns, at + [segments[i]])
    ensures ParentRest(Moved, ns, at, segments, i) == ParentRest(progress, ns, at + [segments[i]], segments, i + 1)
    ensures progress.Moved? ==> DirectoryAt(ns, at + [segments[i]])
  {
    assert segments[i..][0] == segments[i] && segments[i..][1..] == segments[i + 1..];
  }

  lemma ParentRestEnd(progress: Progress, ns: Namespace, at: Location, segments: seq<string>, i: nat)
    requires i < |segments| && (progress.Moved? ==> i == |segments| - 1 || IsDots(segments[i]))
    ensures ParentRest(progress, ns, at, segments, i) ==
            ParentStopped(progress, progress.Moved? && IsDots(segments[i]), at, segments)
  {
    assert segments[i..][0] == segments[i];
  }

  lemma RootIsDirectory(w: World, loc: Locations, fs: FsSpec.Fs)
    requires Represents(w, loc, fs) && [] in fs.ns.mountAt
    ensures DirectoryAt(fs.ns, [])
  {
    assert IsDirectory(fs.ns, Stable(RootNode(fs.ns.mountAt[[]])));
  }

  /** The stack holds one entry per prefix of the location walked to. */
  ghost predicate IsStack(loc: Locations, stack: seq<EntryId>, at: Location) {
    && |stack| == |at| + 1
    && forall i :: 0 <= i < |stack| ==> stack[i] in loc && loc[stack[i]] == at[..i]
  }

  lemma StackTop(loc: Locations, stack: seq<EntryId>, at: Location)
    requires IsStack(loc, stack, at)
    ensures |stack| == |at| + 1
    ensures var top := stack[|stack| - 1]; top in loc && loc[top] == at && top in multiset(stack)
  {
    assert at[..|at|] == at;
  }

  lemma StackPop(loc: Locations, stack: seq<EntryId>, at: Location)
    requires IsStack(loc, stack, at) && |stack| > 1
    ensures IsStack(loc, stack[..|stack| - 1], Parent(at))
    ensures multiset(stack) == multiset(stack[..|stack| - 1]) + multiset{stack[|stack| - 1]}
  {
    assert stack == stack[..|stack| - 1] + [stack[|stack| - 1]];
    assert forall i :: 0 <= i < |at| ==> Parent(at)[..i] == at[..i];
  }

  lemma StackPush(loc: Locations, loc': Locations, stack: seq<EntryId>, at: Location, e: EntryId, name: string)
    requires IsStack(loc, stack, at) && LocGrows(loc, loc') && e in loc' && loc'[e] == at + [name]
    ensures IsStack(loc', stack + [e], at + [name])
  {
    assert (at + [name])[..|at| + 1] == at + [name];
    assert forall i :: 0 <= i <= |at| ==> (at + [name])[..i] == at[..i];
  }

  ghost function RootHandles(mounts: map<MountId, VfsMount>): multiset<EntryId> {
    multiset(set m | m in mounts :: mounts[m].root)
  }

  lemma EmptyRepresents(devices: map<string, DeviceKind>)
    ensures Represents(World(EMPTY, map[], map[], map[], 1, 0, devices), map[], FsSpec.Initial(devices))
  {
  }

  lemma DirectoryData(w: World, loc: Locations, fs: FsSpec.Fs, dir: NodeRef)
    requires Represents(w, loc, fs) && dir in w.nodes && w.nodes[dir].kind.Directory?
    ensures NodeOk(w.nodes, w.mounts, w.devices, dir)
    ensures dir in fs.ns.data && fs.ns.data[dir] == w.nodes[dir].data && fs.ns.devices == w.devices
  {
    assert NodeOk(w.nodes, w.mounts, w.devices, dir);
  }

  lemma RamChild(w: World, loc: Locations, fs: FsSpec.Fs, dir: NodeRef, name: string)
    requires Represents(w, loc, fs) && dir in w.nodes
    requires w.nodes[dir].data.RamDirectory? && name in w.nodes[dir].data.children
    ensures w.nodes[dir].data.children[name] in w.nodes
    ensures ViewOf(w.nodes, w.nodes[dir].data.children[name]) == Stable(w.nodes[dir].data.children[name])
  {
    assert HasChild(fs.ns, dir, name);
  }

  lemma NodeAtChild(ns: Namespace, l: Location, name: string)
    requires l + [name] !in ns.mountAt && NodeAt(ns, l).Some?
    ensures NodeAt(ns, l + [name]) == DriverChild(ns, NodeAt(ns, l).value, name)
  {
    assert Parent(l + [name]) == l;
  }

  lemma MountRootLocation(w: World, loc: Locations, fs: FsSpec.Fs, m: MountId)
    requires Represents(w, loc, fs) && m in w.mounts
    ensures var root := w.mounts[m].root;
            && m < w.nextMount
            && root in w.cache.entries && root in loc && loc[root] in fs.ns.mountAt
            && match w.cache.entries[root].parent
               case None => loc[root] == []
               case Some(p) => p in loc && loc[root] == loc[p] + [w.cache.entries[root].name]
  {
    assert MountLinked(w.mounts, w.cache, loc, fs, m);
    assert EntryLinked(w.cache, w.nodes, loc, fs.ns, w.mounts[m].root);
  }

  /** The cache knows the root exactly when something is mounted there. */
  lemma RootEntry(w: World, loc: Locations, fs: FsSpec.Fs)
    requires Represents(w, loc, fs)
    ensures var r := Upgrade(w.cache, Key(NULL_ID, ROOT_NAME));
            && (r.Some? <==> [] in fs.ns.mountAt)
            && (r.Some? ==> r.value in w.cache.entries && r.value in loc && loc[r.value] == [])
  {
    var k := Key(NULL_ID, ROOT_NAME);
    if Upgrade(w.cache, k).Some? {
      var e := Upgrade(w.cache, k).value;
      assert SlotOk(w.cache, k);
      assert EntryOk(w.cache, e);
      forall p | p in w.cache.entries ensures p != NULL_ID {
        assert EntryOk(w.cache, p);
      }
      assert EntryLinked(w.cache, w.nodes, loc, fs.ns, e);
    }
    if [] in fs.ns.mountAt {
      assert LocationMounted(w.mounts, loc, fs.ns, []);
      var m := fs.ns.mountAt[[]];
      assert MountLinked(w.mounts, w.cache, loc, fs, m);
      var root := w.mounts[m].root;
      assert EntryLinked(w.cache, w.nodes, loc, fs.ns, root);
      assert EntryOk(w.cache, root);
    }
  }

  lemma CreatedView(w: World, loc: Locations, fs: FsSpec.Fs, p: EntryId, name: string, data: NodeData)
    requires Represents(w, loc, fs) && p in w.cache.entries && p in loc
    requires NodeAt(fs.ns, loc[p] + [name]).None? && (data == RamFile([]) || data == RamDirectory(map[]))
    ensures var d := FsSpec.CreatorAt(fs, loc[p]);
            d.Some? ==> NodeAt(FsSpec.Create(fs, d.value, name, data).ns, loc[p] + [name])
                        == Some(Stable(FsSpec.NewNode(fs, d.value)))
  {
    var d := FsSpec.CreatorAt(fs, loc[p]);
    if d.Some? {
      FsInvariants.CreateKeepsInvariant(fs, loc[p], d.value, name, data);
    }
  }

  lemma OpenableEntry(w: World, loc: Locations, fs: FsSpec.Fs, e: EntryId, mode: FileMode)
    requires Represents(w, loc, fs) && e in w.cache.entries && e in loc
    ensures NodeAt(fs.ns, loc[e]).Some?
    ensures FsInvariants.FileOk(fs.ns, FsSpec.OpenFile(NodeAt(fs.ns, loc[e]).value, mode, 0))
  {
    assert EntryLinked(w.cache, w.nodes, loc, fs.ns, e);
    FsInvariants.WhatIsThereCanBeOpened(fs.ns, loc[e], mode);
  }

  lemma RootsStay(m: map<MountId, VfsMount>, m': map<MountId, VfsMount>, held: multiset<EntryId>)
    requires SameRoots(m, m') && RootsIn(m, held)
    ensures RootsIn(m', held)
  {
  }

  lemma RootsInMore(m: map<MountId, VfsMount>, held: multiset<EntryId>, more: multiset<EntryId>)
    requires RootsIn(m, held)
    ensures RootsIn(m, held + more)
  {
  }

  /** An unresolved path whose parent resolves names a free place. */
  lemma FreeTarget(w: World, loc: Locations, fs: FsSpec.Fs, path: string)
    requires Represents(w, loc, fs)
    requires FsSpec.Resolve(fs.ns, path) == Ok(None) && FsSpec.ResolveParent(fs.ns, path).Ok?
    ensures var (dir, name) := FsSpec.ResolveParent(fs.ns, path).value;
            && DirectoryAt(fs.ns, dir) && NodeAt(fs.ns, dir + [name]).None?
            && Parent(dir + [name]) == dir
            && dir + [name] !in fs.ns.mountAt
            && forall p :: p in w.cache.entries && p in loc && loc[p] == dir ==> Upgrade(w.cache, Key(p, name)).None?
  {
    hide Represents, FsSpec.Resolve, FsSpec.ResolveParent;
    assert FsInvariants.Invariant(fs) by { SpecificationIsValid(w, loc, fs); }
    FsInvariants.CreationTarget(fs, path);
    var (dir, name) := FsSpec.ResolveParent(fs.ns, path).value;
    forall p | p in w.cache.entries && p in loc && loc[p] == dir ensures Upgrade(w.cache, Key(p, name)).None? {
      ChildLocation(w, loc, fs, p, name);
    }
  }

  lemma SpecificationIsValid(w: World, loc: Locations, fs: FsSpec.Fs)
    requires Represents(w, loc, fs)
    ensures FsInvariants.Invariant(fs)
  {
  }

  /** The entry found is made for a place that holds the node found. */
  ghost predicate Finds(ns: Namespace, loc: Locations, v: Outcome<View>, r: Outcome<EntryId>) {
    match v
    case Ok(x) => r.Ok? && r.value in loc && NodeAt(ns, loc[r.value]) == Some(x)
    case Err(x) => r == Err(x)
    case Panic => r.Panic?
  }

  /** Creation below a resolved parent. */
  ghost predicate Creates(fs: FsSpec.Fs, target: Outcome<(Location, string)>, data: NodeData, fs': FsSpec.Fs,
                          loc: Locations, r: Outcome<EntryId>) {
    if !target.Ok? then
      fs' == fs && r == target.PropagateFailure()
    else
      var (dir, name) := target.value;
      match FsSpec.CreatorAt(fs, dir)
      case None => fs' == fs && r == Err(OperationNotSupported)
      case Some(d) =>
        && fs' == FsSpec.Create(fs, d, name, data)
        && r.Ok? && r.value in loc && loc[r.value] == dir + [name]
        && NodeAt(fs'.ns, dir + [name]) == Some(Stable(FsSpec.NewNode(fs, d)))
  }

  ghost predicate FindsOrCreates(fs: FsSpec.Fs, path: string, mode: FileMode, fs': FsSpec.Fs, loc: Locations,
                                 r: Outcome<EntryId>) {
    var (after, v) := FsSpec.FindOrCreate(fs, path, mode);
    fs' == after && Finds(fs'.ns, loc, v, r)
  }

  lemma FindFails(fs: FsSpec.Fs, path: string, mode: FileMode, loc: Locations, resolved: Outcome<Option<EntryId>>)
    requires Resolves(loc, FsSpec.Resolve(fs.ns, path), resolved) && !resolved.Ok?
    ensures FindsOrCreates(fs, path, mode, fs, loc, resolved.PropagateFailure())
  {
    hide FsSpec.Resolve;
  }

  lemma FindFinds(fs: FsSpec.Fs, path: string, mode: FileMode, loc: Locations, e: EntryId, r: Outcome<EntryId>)
    requires Resolves(loc, FsSpec.Resolve(fs.ns, path), Ok(Some(e))) && e in loc && NodeAt(fs.ns, loc[e]).Some?
    requires r == if mode.IsMutating() && DirectoryAt(fs.ns, loc[e]) then Err(NotAFile) else Ok(e)
    ensures FindsOrCreates(fs, path, mode, fs, loc, r)
  {
    hide FsSpec.Resolve, NodeAt;
  }

  lemma FindMisses(fs: FsSpec.Fs, path: string, mode: FileMode, loc: Locations)
    requires FsSpec.Resolve(fs.ns, path) == Ok(None) && !mode.IsMutating()
    ensures FindsOrCreates(fs, path, mode, fs, loc, Err(EntryNotFound))
  {
    hide FsSpec.Resolve;
  }

  lemma FindCreates(fs: FsSpec.Fs, path: string, mode: FileMode, fs': FsSpec.Fs, loc: Locations, r: Outcome<EntryId>)
    requires FsSpec.Resolve(fs.ns, path) == Ok(None) && mode.IsMutating()
    requires Creates(fs, FsSpec.ResolveParent(fs.ns, path), RamFile([]), fs', loc, r)
    ensures FindsOrCreates(fs, path, mode, fs', loc, r)
  {
    hide FsSpec.Resolve, FsSpec.ResolveParent, FsSpec.CreatorAt, FsSpec.Create, NodeAt;
  }

  lemma SameRootHandles(m: map<MountId, VfsMount>, m': map<MountId, VfsMount>)
    requires SameRoots(m, m')
    ensures RootHandles(m') == RootHandles(m)
  {
    assert (set x | x in m' :: m'[x].root) == (set x | x in m :: m[x].root);
  }

  lemma HeldByMounts(m: map<MountId, VfsMount>, more: multiset<EntryId>)
    ensures RootsIn(m, more + RootHandles(m))
  {
  }

  lemma FilesAreSpecified(w: World, loc: Locations, fs: FsSpec.Fs, fd: FileDescriptor)
    requires Represents(w, loc, fs)
    ensures fd in fs.files <==> fd in w.files
  {
  }

  ghost predicate Located(loc: Locations, spec: Outcome<Location>, r: Outcome<EntryId>) {
    match spec
    case Ok(l) => r.Ok? && r.value in loc && loc[r.value] == l
    case Err(x) => r == Err(x)
    case Panic => r.Panic?
  }

  /** Nothing is mounted under the next mount id, and the next entry is no root. */
  lemma MountIdIsFresh(w: World, loc: Locations, fs: FsSpec.Fs)
    requires Represents(w, loc, fs)
    ensures w.nextMount !in w.mounts && w.nextMount == fs.nextMount
    ensures forall m :: m in w.mounts ==> w.mounts[m].root != w.cache.next
  {
    forall m | m in w.mounts ensures m < w.nextMount && w.mounts[m].root < w.cache.next && w.mounts[m].root in w.cache.handles {
      assert MountLinked(w.mounts, w.cache, loc, fs, m);
      assert EntryOk(w.cache, w.mounts[m].root);
    }
  }

  lemma MountedRootHandles(mounts: map<MountId, VfsMount>, m: MountId, root: EntryId, fs: FileSystem)
    requires m !in mounts && forall x :: x in mounts ==> mounts[x].root != root
    ensures RootHandles(mounts[m := VfsMount(root, fs)]) == RootHandles(mounts) + multiset{root}
  {
    var mounts' := mounts[m := VfsMount(root, fs)];
    assert forall x :: x in mounts' <==> x in mounts || x == m;
    assert mounts'[m].root == root && forall x :: x in mounts ==> mounts'[x].root == mounts[x].root;
    assert (set x | x in mounts' :: mounts'[x].root) == (set x | x in mounts :: mounts[x].root) + {root};
  }

  lemma CreateDirectoryFails(fs: FsSpec.Fs, path: string)
    ensures var r := FsSpec.Resolve(fs.ns, path);
            && (!r.Ok? ==> FsSpec.CreateDirectory(fs, path) == (fs, r.PropagateFailure()))
            && (r.Ok? && r.value.Some? ==> FsSpec.CreateDirectory(fs, path) == (fs, Err(AlreadyExists)))
  {
  }

  lemma CreateDirectoryCreates(fs: FsSpec.Fs, path: string, fs': FsSpec.Fs, loc: Locations, r: Outcome<EntryId>)
    requires FsSpec.Resolve(fs.ns, path) == Ok(None)
    requires Creates(fs, FsSpec.ResolveParent(fs.ns, path), RamDirectory(map[]), fs', loc, r)
    ensures fs' == FsSpec.CreateDirectory(fs, path).0
    ensures Located(loc, FsSpec.CreateDirectory(fs, path).1, r)
  {
  }

  lemma NothingMounted(fs: FsSpec.Fs)
    requires [] !in fs.ns.mountAt
    ensures NodeAt(fs.ns, []).None?
  {
  }

  /** What a read comes to, in terms of the concrete descriptor and node. */
  lemma ReadFileOf(w: World, loc: Locations, fs: FsSpec.Fs, fd: FileDescriptor, size: nat)
    requires Represents(w, loc, fs) && fd in w.files
    ensures var f, (fs', r) := w.files[fd], FsSpec.ReadFile(fs, fd, size);
            && f.node in w.nodes && f.node.mount in w.mounts && fd in fs.files
            && var n := w.nodes[f.node];
              if n.kind.Directory? then (fs', r) == (fs, Panic)
              else if !f.mode.Read? then (fs', r) == (fs, Err(InvalidMode))
              else if w.mounts[f.node.mount].fs.kind.RamFs? then
                && n.data.RamFile?
                && var got := FsSpec.Slice(n.data.bytes, f.position, size);
                  r == Ok(got) && fs' == FsSpec.Advance(fs, fd, |got|) && FsInvariants.Invariant(fs')
              else
                && n.data.Device? && n.data.name in w.devices
                && match w.devices[n.data.name]
                   case ZeroDevice => r == Ok(FsSpec.Zeros(size)) && fs' == FsSpec.Advance(fs, fd, size) && FsInvariants.Invariant(fs')
                   case NullDevice => (fs', r) == (fs, Err(OperationNotSupported))
  {
    FileNode(w, loc, fs, fd);
    FsInvariants.ReadKeeps(fs, fd, size);
    hide FsInvariants.Invariant, Coherent, EntriesLinked, MountsLinked, FilesLinked;
  }

  /** What a write comes to, in terms of the concrete descriptor and node. */
  lemma WriteFileOf(w: World, loc: Locations, fs: FsSpec.Fs, fd: FileDescriptor, buffer: seq<byte>)
    requires Represents(w, loc, fs) && fd in w.files
    ensures var f, (fs', r) := w.files[fd], FsSpec.WriteFile(fs, fd, buffer);
            && f.node in w.nodes && f.node.mount in w.mounts && fd in fs.files
            && var n := w.nodes[f.node];
              if n.kind.Directory? then (fs', r) == (fs, Panic)
              else if !f.mode.Write? then (fs', r) == (fs, Err(InvalidMode))
              else if w.mounts[f.node.mount].fs.kind.RamFs? then
                && n.data.RamFile?
                && var bytes := FsSpec.Splice(n.data.bytes, f.position, buffer);
                  && r == Ok(|buffer|)
                  && fs' == FsSpec.Advance(fs.(ns := fs.ns.(data := fs.ns.data[f.node := RamFile(bytes)])), fd, |buffer|)
                  && FsInvariants.Invariant(fs')
              else
                && n.data.Device? && n.data.name in w.devices
                && match w.devices[n.data.name]
                   case NullDevice => r == Ok(|buffer|) && fs' == FsSpec.Advance(fs, fd, |buffer|) && FsInvariants.Invariant(fs')
                   case ZeroDevice => (fs', r) == (fs, Err(OperationNotSupported))
  {
    FileNode(w, loc, fs, fd);
    FsInvariants.WriteKeeps(fs, fd, buffer);
    hide FsInvariants.Invariant, Coherent, EntriesLinked, MountsLinked, FilesLinked, FsSpec.Splice;
  }

  function ShownAs(e: DirectoryIterationEntry): FsSpec.Listed {
    FsSpec.Listed(e.kind, if e.kind.CharDevice? then None else Some(e.id))
  }

  /** A listing up to the ids of devices, which are not stable. */
  function Shown(ctx: DirectoryIterationContext): map<string, FsSpec.Listed> {
    map n | n in ctx :: ShownAs(ctx[n])
  }

  ghost predicate Shows(spec: Outcome<map<string, FsSpec.Listed>>, r: Outcome<DirectoryIterationContext>) {
    match spec
    case Ok(listing) => r.Ok? && Shown(r.value) == listing
    case Err(x) => r == Err(x)
    case Panic => r.Panic?
  }

  /** A driver's listing is what its lookup finds. */
  ghost predicate ListsDriver(ns: Namespace, dir: NodeRef, ctx: DirectoryIterationContext) {
    && (forall n :: n in ctx <==> DriverChild(ns, Stable(dir), n).Some?)
    && (forall n :: n in ctx ==> ShownAs(ctx[n]) == FsSpec.ListedAs(ns, DriverChild(ns, Stable(dir), n).value))
  }

  lemma RamChildren(w: World, loc: Locations, fs: FsSpec.Fs, dir: NodeRef)
    requires Represents(w, loc, fs) && dir in w.nodes && w.nodes[dir].data.RamDirectory?
    ensures forall n :: n in w.nodes[dir].data.children ==>
              var c := w.nodes[dir].data.children[n];
              && c in w.nodes
              && DriverChild(fs.ns, Stable(dir), n) == Some(Stable(c))
              && ShownAs(DirectoryIterationEntry(c.id, w.nodes[c].kind)) == FsSpec.ListedAs(fs.ns, Stable(c))
    ensures forall n :: n !in w.nodes[dir].data.children ==> DriverChild(fs.ns, Stable(dir), n).None?
  {
    forall n | n in w.nodes[dir].data.children
      ensures var c := w.nodes[dir].data.children[n];
              && c in w.nodes
              && DriverChild(fs.ns, Stable(dir), n) == Some(Stable(c))
              && ShownAs(DirectoryIterationEntry(c.id, w.nodes[c].kind)) == FsSpec.ListedAs(fs.ns, Stable(c))
    {
      var c := w.nodes[dir].data.children[n];
      assert HasChild(fs.ns, dir, n) && Child(fs.ns, dir, n) == c;
      assert NodeOk(w.nodes, w.mounts, w.devices, c);
    }
  }

  /** A name is mounted in a directory exactly if some mount's root is a child of
      that directory's entry under that name. */
  lemma MountedNames(w: World, loc: Locations, fs: FsSpec.Fs, d: EntryId, n: string)
    requires Represents(w, loc, fs) && d in w.cache.entries && d in loc
    ensures loc[d] + [n] in fs.ns.mountAt <==>
              exists m :: 0 <= m < w.nextMount && m in w.mounts
                && w.mounts[m].root in w.cache.entries
                && w.cache.entries[w.mounts[m].root].parent == Some(d)
                && w.cache.entries[w.mounts[m].root].name == n
  {
    if loc[d] + [n] in fs.ns.mountAt {
      MountRootIsChild(w, loc, fs, d, n);
      MountRootLocation(w, loc, fs, fs.ns.mountAt[loc[d] + [n]]);
    }
    forall m | m in w.mounts
      ensures var root := w.mounts[m].root;
              root in w.cache.entries && w.cache.entries[root].parent == Some(d) && w.cache.entries[root].name == n
              ==> loc[d] + [n] in fs.ns.mountAt
    {
      MountRootLocation(w, loc, fs, m);
    }
  }

  lemma ListingIsShown(w: World, loc: Locations, fs: FsSpec.Fs, d: EntryId, driver: DirectoryIterationContext,
                       ctx: DirectoryIterationContext)
    requires Represents(w, loc, fs) && d in w.cache.entries && d in loc
    requires NodeAt(fs.ns, loc[d]) == Some(Stable(w.cache.entries[d].node)) && DirectoryAt(fs.ns, loc[d])
    requires ListsDriver(fs.ns, w.cache.entries[d].node, driver)
    requires forall n :: n in ctx <==> n in driver || loc[d] + [n] in fs.ns.mountAt
    requires forall n :: n in ctx ==>
               ctx[n] == if loc[d] + [n] in fs.ns.mountAt then DirectoryIterationEntry(0, Directory) else driver[n]
    ensures FsSpec.Listing(fs.ns, loc[d]) == Shown(ctx)
  {
    forall n
      ensures n in ctx <==> n in FsSpec.Listing(fs.ns, loc[d])
      ensures n in ctx ==> FsSpec.Listing(fs.ns, loc[d])[n] == ShownAs(ctx[n])
    {
      FsInvariants.ListingAgreesWithLookup(fs.ns, loc[d], n);
      var at := loc[d] + [n];
      if at in fs.ns.mountAt {
        assert IsDirectory(fs.ns, Stable(RootNode(fs.ns.mountAt[at])));
      } else {
        NodeAtChild(fs.ns, loc[d], n);
      }
    }
  }

  lemma ParentLocation(w: World, loc: Locations, fs: FsSpec.Fs, e: EntryId)
    requires Represents(w, loc, fs) && e in w.cache.entries
    ensures e in loc
    ensures match w.cache.entries[e].parent
            case None => loc[e] == []
            case Some(p) => p < e && p in w.cache.entries && p in loc && loc[e] == loc[p] + [w.cache.entries[e].name]
  {
    assert EntryLinked(w.cache, w.nodes, loc, fs.ns, e);
    assert EntryOk(w.cache, e);
  }

  /** What is live is exactly what one of these handles is on or below. */
  ghost predicate LiveIffHeld(c: Cache, handles: multiset<EntryId>) {
    forall x :: x in c.entries <==> exists h :: h in handles && AtOrBelow(c, h, x)
  }

  /** No other of these entries is for the same place as `e`. */
  ghost predicate OnlyEntryThere(loc: Locations, handles: multiset<EntryId>, e: EntryId) {
    e in loc && forall x :: x in handles ==> x in loc && (loc[x] == loc[e] ==> x == e)
  }

  lemma HeldEntriesAreUnique(w: World, loc: Locations, fs: FsSpec.Fs, e: EntryId, some: multiset<EntryId>)
    requires Represents(w, loc, fs) && e in w.cache.handles && some <= w.cache.handles
    ensures OnlyEntryThere(loc, some, e)
  {
    assert EntryLinked(w.cache, w.nodes, loc, fs.ns, e);
    forall x | x in some ensures x in loc && (loc[x] == loc[e] ==> x == e) {
      assert x in w.cache.handles;
      assert EntryLinked(w.cache, w.nodes, loc, fs.ns, x);
      if loc[x] == loc[e] {
        OneEntryPerLocation(w.cache, w.nodes, loc, fs.ns, x, e);
      }
    }
  }
}
