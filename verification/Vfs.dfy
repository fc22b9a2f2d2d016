/** The virtual file system as the kernel runs it (kernel/src/fs/vfs.rs). */
module Vfs {
  import opened FsTypes
  import opened Namespace
  import opened CacheSpec
  import opened VfsState
  import opened VfsRefinement
  import opened CallLaws
  import DirectoryCache
  import FsSpec
  import PathParser

  class VirtualFileSystem {
    const cache: DirectoryCache.DirectoryCache
    const devices: map<string, DeviceKind>
    var files: map<FileDescriptor, File>
    var mountTable: map<MountId, VfsMount>
    /** The nodes the drivers made, with their metadata and private data. */
    var nodes: map<NodeRef, FsNode>
    var nextFd: FileDescriptor
    var nextMount: MountId

    /** The directory entries that clients hold on to: not kernel state, but the
        part of the environment that keeps entries alive. */
    var clients: multiset<EntryId>
    ghost var loc: Locations
    /** The state of the cacheless specification that this one represents. */
    ghost var fs: FsSpec.Fs

    ghost function W(): World
      reads this, cache
    {
      World(cache.Value(), nodes, mountTable, files, nextFd, nextMount, devices)
    }

    ghost predicate Ready()
      reads this, cache
    {
      Represents(W(), loc, fs)
    }

    /** Between calls, exactly the mount table and clients hold entries. */
    ghost predicate Valid()
      reads this, cache
    {
      Ready() && cache.handles == clients + RootHandles(mountTable)
    }

    constructor (devices: map<string, DeviceKind>)
      ensures Valid() && fresh(cache)
      ensures fs == FsSpec.Initial(devices)
    {
      cache := new DirectoryCache.DirectoryCache();
      this.devices := devices;
      files, mountTable, nodes, nextFd, nextMount, clients := map[], map[], map[], 1, 0, multiset{};
      loc, fs := map[], FsSpec.Initial(devices);
      new;
      EmptyRepresents(devices);
    }

    // -------------------------------------------------------------------
    // Handles
    // -------------------------------------------------------------------

    method DropEntry(e: EntryId, ghost rest: multiset<EntryId>)
      requires Ready() && cache.handles == rest + multiset{e} && RootsIn(mountTable, rest)
      modifies cache
      ensures Ready() && cache.handles == rest && Survives(old(cache.Value()), cache.Value())
    {
      hide Represents, Coherent, RootsIn;
      CacheIsCoherent(W(), loc, fs);
      assert cache.handles - multiset{e} == rest;
      EntryDropped(W(), loc, fs, e);
      cache.Drop(e);
    }

    /** Drops the handles of a resolution stack, oldest first. */
    method DropStack(stack: seq<EntryId>, ghost rest: multiset<EntryId>)
      requires Ready() && cache.handles == rest + multiset(stack) && RootsIn(mountTable, rest)
      modifies cache
      ensures Ready() && cache.handles == rest
    {
      hide Represents;
      var i := 0;
      while i < |stack|
        invariant 0 <= i <= |stack|
        invariant Ready() && cache.handles == rest + multiset(stack[i..])
      {
        assert stack[i..] == [stack[i]] + stack[i + 1..];
        DropEntry(stack[i], rest + multiset(stack[i + 1..]));
        i := i + 1;
      }
    }

    // -------------------------------------------------------------------
    // Lookups
    // -------------------------------------------------------------------

    /** A driver lookup in a directory node: ramfs reads its children, devfs asks
        the device registry and makes a new node. */
    method LookupInDriver(dir: NodeRef, name: string) returns (r: Option<NodeRef>)
      requires Ready() && dir in nodes && NodeOk(nodes, mountTable, devices, dir) && nodes[dir].kind.Directory?
      modifies this`nodes, this`mountTable
      ensures Ready() && SameRoots(old(mountTable), mountTable)
      ensures r.Some? ==> r.value in nodes
      ensures DriverChild(fs.ns, Stable(dir), name) == if r.Some? then Some(ViewOf(nodes, r.value)) else None
    {
      DirectoryData(W(), loc, fs, dir);
      hide Represents;
      if mountTable[dir.mount].fs.kind.RamFs? {
        var children := nodes[dir].data.children;
        r := if name in children then Some(children[name]) else None;
        if name in children {
          RamChild(W(), loc, fs, dir, name);
        }
      } else if name in devices {
        var node := NextNode(mountTable, dir.mount);
        DeviceNumbered(W(), loc, fs, dir.mount, nodes[node := FsNode(CharDevice, 1, Device(name))], name);
        mountTable := BumpNodeId(mountTable, dir.mount);
        nodes := nodes[node := FsNode(CharDevice, 1, Device(name))];
        r := Some(node);
      } else {
        r := None;
      }
    }

    /** The cached entry of a name, or a new one for what the driver finds. The
        mount table is not consulted, and need not be. */
    method GetCachedOrLookup(parent: EntryId, name: string) returns (r: Option<EntryId>)
      requires Ready() && parent in cache.handles && parent in loc && DirectoryAt(fs.ns, loc[parent])
      modifies this`nodes, this`mountTable, this`loc, cache
      ensures Ready() && Later(old(mountTable), mountTable, old(loc), loc)
      ensures cache.handles == if r.Some? then old(cache.handles) + multiset{r.value} else old(cache.handles)
      ensures NodeAt(fs.ns, old(loc)[parent] + [name]).Some? <==> r.Some?
      ensures r.Some? ==> r.value in loc && loc[r.value] == old(loc)[parent] + [name]
    {
      hide Represents, NodeAt;
      RootsAreHeld(W(), loc, fs);
      ChildLocation(W(), loc, fs, parent, name);
      EntryNode(W(), loc, fs, parent);
      ghost var w := W();
      if Upgrade(w.cache, Key(parent, name)).Some? {
        EntryCloned(w, loc, fs, Upgrade(w.cache, Key(parent, name)).value);
      }
      r := cache.Lookup(parent, name);
      if r.Some? {
        return;
      }
      r := LookupAndInsert(parent, name);
    }

    /** A name that is not cached: asks the driver, and caches what it finds. */
    method LookupAndInsert(parent: EntryId, name: string) returns (r: Option<EntryId>)
      requires Ready() && parent in cache.handles && parent in loc && DirectoryAt(fs.ns, loc[parent])
      requires Upgrade(cache.Value(), Key(parent, name)).None?
      modifies this`nodes, this`mountTable, this`loc, cache
      ensures Ready() && Later(old(mountTable), mountTable, old(loc), loc)
      ensures cache.handles == if r.Some? then old(cache.handles) + multiset{r.value} else old(cache.handles)
      ensures NodeAt(fs.ns, old(loc)[parent] + [name]).Some? <==> r.Some?
      ensures r.Some? ==> r.value in loc && loc[r.value] == old(loc)[parent] + [name]
    {
      hide Represents, NodeAt;
      RootsAreHeld(W(), loc, fs);
      ChildLocation(W(), loc, fs, parent, name);
      EntryNode(W(), loc, fs, parent);
      NodeAtChild(fs.ns, loc[parent], name);
      var node := LookupInDriver(cache.entries[parent].node, name);
      if node.None? {
        return None;
      }
      EntryInserted(W(), loc, fs, parent, node.value, name);
      var e := cache.Insert(Some(parent), node.value, name);
      loc := loc[e := loc[parent] + [name]];
      r := Some(e);
    }

    /** The root of a file system mounted in `top` under a name, if any. */
    method FindMount(top: EntryId, name: string) returns (r: Option<EntryId>)
      requires Ready() && top in cache.entries && top in loc
      ensures r.Some? <==> loc[top] + [name] in fs.ns.mountAt
      ensures r.Some? ==> r.value in cache.entries && r.value in loc && loc[r.value] == loc[top] + [name]
    {
      hide Represents;
      var id := 0;
      while id < nextMount
        invariant 0 <= id <= nextMount
        invariant forall m :: 0 <= m < id && m in mountTable ==> !IsMountBelow(m, top, name)
      {
        if id in mountTable {
          MountRootLocation(W(), loc, fs, id);
          var root := mountTable[id].root;
          if cache.entries[root].parent == Some(top) && cache.entries[root].name == name {
            return Some(root);
          }
        }
        id := id + 1;
      }
      if loc[top] + [name] in fs.ns.mountAt {
        MountRootIsChild(W(), loc, fs, top, name);
        MountRootLocation(W(), loc, fs, fs.ns.mountAt[loc[top] + [name]]);
      }
      r := None;
    }

    ghost predicate IsMountBelow(m: MountId, top: EntryId, name: string)
      requires m in mountTable
      reads this, cache
    {
      var root := mountTable[m].root;
      root in cache.entries && cache.entries[root].parent == Some(top) && cache.entries[root].name == name
    }

    // -------------------------------------------------------------------
    // Path resolution
    // -------------------------------------------------------------------

    /** Parses a path and fetches the root, as both walks do first. */
    method StartWalk(path: string) returns (r: Outcome<(EntryId, seq<string>)>)
      requires Ready()
      modifies cache
      ensures Ready()
      ensures match FsSpec.Segments(fs.ns, path)
              case Ok(s) => r.Ok? && r.value.1 == s && r.value.0 in loc && loc[r.value.0] == [] && [] in fs.ns.mountAt
              case Err(x) => r == Err(x)
              case Panic => r.Panic?
      ensures cache.handles == if r.Ok? then old(cache.handles) + multiset{r.value.0} else old(cache.handles)
    {
      hide Represents;
      var parsed := PathParser.FromStr(path);
      if parsed.NonAscii? {
        return Panic;
      } else if !parsed.Parsed? {
        return Err(InvalidPath);
      } else if !PathParser.IsAbsolute(parsed.segments) {
        return Panic;
      }
      RootEntry(W(), loc, fs);
      ghost var key := Key(NULL_ID, ROOT_NAME);
      if Upgrade(W().cache, key).Some? {
        EntryCloned(W(), loc, fs, Upgrade(W().cache, key).value);
      }
      var root := cache.GetRoot();
      if root.None? {
        return Err(NoRootDirectory);
      }
      r := Ok((root.value, parsed.segments[1..]));
    }

    /** Follows one segment: the stack moves where the cacheless walk does, or
        the walk is over and the stack is let go of. */
    method FollowSegment(stack: seq<EntryId>, segment: string, ghost at: Location, ghost held: multiset<EntryId>)
      returns (progress: Progress, stack': seq<EntryId>)
      requires Ready() && IsStack(loc, stack, at) && cache.handles == held + multiset(stack) && RootsIn(mountTable, held)
      modifies this`nodes, this`mountTable, this`loc, cache
      ensures Ready() && Later(old(mountTable), mountTable, old(loc), loc)
      ensures match WalkStep(fs.ns, at, segment)
              case Found(l) => progress.Moved? && IsStack(loc, stack', l)
              case Missing => progress.NotThere?
              case NotDirectory => progress.Blocked?
      ensures cache.handles == if progress.Moved? then held + multiset(stack') else held
    {
      hide Represents, NodeAt, IsStack;
      progress, stack' := Moved, stack;
      StackTop(loc, stack, at);
      var top := stack[|stack| - 1];
      RootsAreHeld(W(), loc, fs);
      EntryNode(W(), loc, fs, top);
      if !nodes[cache.entries[top].node].kind.Directory? {
        DropStack(stack, held);
        return Blocked, stack;
      }
      if segment == DOT {
        // single dots are redundant
      } else if segment == DOT_DOT {
        if |stack| > 1 {
          stack' := stack[..|stack| - 1];
          StackPop(loc, stack, at);
          DropEntry(top, held + multiset(stack'));
        }
      } else {
        var next := Descend(top, segment);
        if next.None? {
          DropStack(stack, held);
          return NotThere, stack;
        }
        StackPush(old(loc), loc, stack, at, next.value, segment);
        stack' := stack + [next.value];
      }
    }

    /** Follows all segments, starting with a handle on the root. */
    method FollowSegments(root: EntryId, segments: seq<string>, ghost held: multiset<EntryId>)
      returns (progress: Progress, stack: seq<EntryId>, ghost at: Location)
      requires Ready() && root in loc && loc[root] == []
      requires cache.handles == held + multiset{root} && RootsIn(mountTable, held)
      modifies this`nodes, this`mountTable, this`loc, cache
      ensures Ready() && Later(old(mountTable), mountTable, old(loc), loc) && RootsIn(mountTable, held)
      ensures Walk(fs.ns, [], segments) == Stopped(progress, Found(at))
      ensures progress.Moved? ==> IsStack(loc, stack, at)
      ensures cache.handles == if progress.Moved? then held + multiset(stack) else held
    {
      hide Represents, RootHandles, Later, RootsIn, IsStack, Walk, WalkStep;
      progress, stack, at := Moved, [root], [];
      StartOfWalk(fs.ns, loc, root, segments);
      LaterIsReflexive(mountTable, loc);
      var i := 0;
      while progress.Moved? && i < |segments|
        invariant 0 <= i <= |segments|
        invariant Ready() && Later(old(mountTable), mountTable, old(loc), loc) && RootsIn(mountTable, held)
        invariant progress.Moved? ==> IsStack(loc, stack, at)
        invariant cache.handles == if progress.Moved? then held + multiset(stack) else held
        invariant Walk(fs.ns, [], segments) == Stopped(progress, Walk(fs.ns, at, segments[i..]))
        decreases |segments| - i
      {
        WalkUnfolds(fs.ns, at, segments, i);
        ghost var step, mounts, locs := WalkStep(fs.ns, at, segments[i]), mountTable, loc;
        progress, stack := FollowSegment(stack, segments[i], at, held);
        LaterIsTransitive(old(mountTable), mounts, mountTable, old(loc), locs, loc, held);
        i := i + 1;
        StopsLike(progress, step);
        at := if step.Found? then step.loc else at;
      }
      WalkUnfolds(fs.ns, at, segments, i);
      StopsLike(progress, Found(at));
    }

    /** Keeps the top of a stack and lets go of the rest. */
    method PopBack(stack: seq<EntryId>, ghost at: Location, ghost held: multiset<EntryId>) returns (top: EntryId)
      requires Ready() && IsStack(loc, stack, at) && cache.handles == held + multiset(stack) && RootsIn(mountTable, held)
      modifies cache
      ensures Ready() && top in loc && loc[top] == at && cache.handles == held + multiset{top}
    {
      hide Represents, IsStack;
      StackTop(loc, stack, at);
      top := stack[|stack| - 1];
      assert stack == stack[..|stack| - 1] + [top];
      DropStack(stack[..|stack| - 1], held + multiset{top});
    }

    /** Resolves a path with a stack of entries. The outcome is the cacheless
        walk's: the same error, nothing, or the entry at the same location. */
    method ResolvePath(path: string) returns (r: Outcome<Option<EntryId>>)
      requires Ready()
      modifies this`nodes, this`mountTable, this`loc, cache
      ensures Ready() && Later(old(mountTable), mountTable, old(loc), loc)
      ensures Resolves(loc, FsSpec.Resolve(fs.ns, path), r)
      ensures cache.handles == Holding(old(cache.handles), r)
    {
      hide Represents, Survives, Walk, Later, RootsIn, IsStack, FsSpec.Segments;
      RootsAreHeld(W(), loc, fs);
      var start := StartWalk(path);
      if !start.Ok? {
        LaterIsReflexive(mountTable, loc);
        return start.PropagateFailure();
      }
      var progress, stack;
      ghost var at;
      progress, stack, at := FollowSegments(start.value.0, start.value.1, old(cache.handles));
      match progress {
        case NotThere =>
          r := Ok(None);
        case Blocked =>
          r := Err(NotADirectory);
        case Moved =>
          var top := PopBack(stack, at, old(cache.handles));
          r := Ok(Some(top));
      }
    }

    /** Follows one segment that is to be a directory, without the mount table. */
    method FollowDirectory(stack: seq<EntryId>, name: string, ghost at: Location, ghost held: multiset<EntryId>)
      returns (progress: Progress, stack': seq<EntryId>)
      requires Ready() && IsStack(loc, stack, at) && cache.handles == held + multiset(stack) && RootsIn(mountTable, held)
      requires DirectoryAt(fs.ns, at)
      modifies this`nodes, this`mountTable, this`loc, cache
      ensures Ready() && Later(old(mountTable), mountTable, old(loc), loc)
      ensures progress == ParentProgress(fs.ns, at + [name])
      ensures progress.Moved? ==> IsStack(loc, stack', at + [name])
      ensures cache.handles == if progress.Moved? then held + multiset(stack') else held
    {
      hide Represents, NodeAt, IsStack;
      progress, stack' := Moved, stack;
      StackTop(loc, stack, at);
      var top := stack[|stack| - 1];
      var next := GetCachedOrLookup(top, name);
      if next.None? {
        DropStack(stack, held);
        return NotThere, stack;
      }
      StackPush(old(loc), loc, stack, at, next.value, name);
      stack' := stack + [next.value];
      RootsAreHeld(W(), loc, fs);
      assert next.value in cache.handles;
      EntryNode(W(), loc, fs, next.value);
      if !nodes[cache.entries[next.value].node].kind.Directory? {
        DropStack(stack', held);
        return Blocked, stack;
      }
    }

    /** Follows all segments but the last, up to the first dots. */
    method FollowDirectories(root: EntryId, segments: seq<string>, ghost held: multiset<EntryId>)
      returns (progress: Progress, stack: seq<EntryId>, dots: bool, ghost at: Location)
      requires Ready() && root in loc && loc[root] == [] && DirectoryAt(fs.ns, []) && segments != []
      requires cache.handles == held + multiset{root} && RootsIn(mountTable, held)
      modifies this`nodes, this`mountTable, this`loc, cache
      ensures Ready() && Later(old(mountTable), mountTable, old(loc), loc) && RootsIn(mountTable, held)
      ensures ParentWalk(fs.ns, [], segments) == ParentStopped(progress, dots, at, segments)
      ensures progress.Moved? ==> IsStack(loc, stack, at)
      ensures cache.handles == if progress.Moved? then held + multiset(stack) else held
    {
      hide *;
      progress, stack, at := Moved, [root], [];
      StartOfWalk(fs.ns, loc, root, segments);
      LaterIsReflexive(mountTable, loc);
      var i := 0;
      while progress.Moved? && i < |segments| - 1 && !IsDots(segments[i])
        invariant 0 <= i < |segments|
        invariant Ready() && Later(old(mountTable), mountTable, old(loc), loc) && RootsIn(mountTable, held)
        invariant progress.Moved? ==> IsStack(loc, stack, at) && DirectoryAt(fs.ns, at)
        invariant cache.handles == if progress.Moved? then held + multiset(stack) else held
        invariant ParentWalk(fs.ns, [], segments) == ParentRest(progress, fs.ns, at, segments, i)
        decreases |segments| - i
      {
        ghost var mounts, locs := mountTable, loc;
        progress, stack := FollowDirectory(stack, segments[i], at, held);
        LaterIsTransitive(old(mountTable), mounts, mountTable, old(loc), locs, loc, held);
        ParentRestStep(progress, fs.ns, at, segments, i);
        at := at + [segments[i]];
        i := i + 1;
      }
      ParentRestEnd(progress, fs.ns, at, segments, i);
      dots := progress.Moved? && IsDots(segments[i]);
    }

    /** Resolves the parent directory of a path, and the name within it. The
        mount table is never read, yet the parent is the cacheless walk's. */
    method ResolvePathParentDirectory(path: string) returns (r: Outcome<(EntryId, string)>)
      requires Ready()
      modifies this`nodes, this`mountTable, this`loc, cache
      ensures Ready() && Later(old(mountTable), mountTable, old(loc), loc)
      ensures ResolvesParent(loc, FsSpec.ResolveParent(fs.ns, path), r)
      ensures !r.Panic? ==>
                cache.handles == if r.Ok? then old(cache.handles) + multiset{r.value.0} else old(cache.handles)
    {
      hide Represents, Survives, ParentWalk, Later, RootsIn, IsStack, DirectoryAt, FsSpec.Segments;
      RootsAreHeld(W(), loc, fs);
      var start := StartWalk(path);
      LaterIsReflexive(mountTable, loc);
      if !start.Ok? {
        return start.PropagateFailure();
      }
      var (root, segments) := start.value;
      if segments == [] {
        DropEntry(root, old(cache.handles));
        return Err(InvalidPath);
      }
      RootIsDirectory(W(), loc, fs);
      var progress, stack, dots;
      ghost var at;
      progress, stack, dots, at := FollowDirectories(root, segments, old(cache.handles));
      match progress {
        case NotThere =>
          r := Err(EntryNotFound);
        case Blocked =>
          r := Err(NotADirectory);
        case Moved =>
          if dots {
            return Panic;
          }
          var top := PopBack(stack, at, old(cache.handles));
          r := Ok((top, segments[|segments| - 1]));
      }
    }

    /** One step down: first the mount table, then the cache and the driver. */
    method Descend(top: EntryId, name: string) returns (r: Option<EntryId>)
      requires Ready() && top in cache.handles && top in loc && DirectoryAt(fs.ns, loc[top])
      modifies this`nodes, this`mountTable, this`loc, cache
      ensures Ready() && Later(old(mountTable), mountTable, old(loc), loc)
      ensures cache.handles == if r.Some? then old(cache.handles) + multiset{r.value} else old(cache.handles)
      ensures NodeAt(fs.ns, old(loc)[top] + [name]).Some? <==> r.Some?
      ensures r.Some? ==> r.value in loc && loc[r.value] == old(loc)[top] + [name]
    {
      hide Represents, DirectoryAt;
      RootsAreHeld(W(), loc, fs);
      var mounted := FindMount(top, name);
      if mounted.Some? {
        EntryCloned(W(), loc, fs, mounted.value);
        cache.Clone(mounted.value);
        return mounted;
      }
      r := GetCachedOrLookup(top, name);
    }

    // -------------------------------------------------------------------
    // Creating
    // -------------------------------------------------------------------

    /** Asks the parent's driver for a new node; devfs has no such operation. */
    method CreateInDriver(parent: EntryId, name: string, kind: NodeKind, data: NodeData) returns (r: Outcome<NodeRef>)
      requires Ready() && parent in cache.entries && parent in loc && DirectoryAt(fs.ns, loc[parent])
      requires NodeAt(fs.ns, loc[parent] + [name]).None? && IsNewNode(kind, data)
      modifies this`nodes, this`mountTable, this`fs
      ensures Ready() && SameRoots(old(mountTable), mountTable)
      ensures match FsSpec.CreatorAt(old(fs), loc[parent])
              case None => r == Err(OperationNotSupported) && fs == old(fs)
              case Some(d) =>
                && r == Ok(FsSpec.NewNode(old(fs), d))
                && fs == FsSpec.Create(old(fs), d, name, data)
                && r.value in nodes
                && NodeAt(fs.ns, loc[parent] + [name]) == Some(ViewOf(nodes, r.value))
    {
      hide Represents, NodeAt;
      EntryNode(W(), loc, fs, parent);
      var dir := cache.entries[parent].node;
      if mountTable[dir.mount].fs.kind.DevFs? {
        return Err(OperationNotSupported);
      }
      NodeCreated(W(), loc, fs, parent, dir, name, kind, data);
      var node := NextNode(mountTable, dir.mount);
      mountTable := BumpNodeId(mountTable, dir.mount);
      nodes := NodesAfterCreate(nodes, dir, name, node, kind, data);
      fs := FsSpec.Create(fs, dir, name, data);
      r := Ok(node);
    }

    /** Creates a node and its entry. The name is free in the cache, so the
        insertion's assertion holds. */
    method CreateEntry(parent: EntryId, name: string, kind: NodeKind, data: NodeData) returns (r: Outcome<EntryId>)
      requires Ready() && parent in cache.handles && parent in loc && DirectoryAt(fs.ns, loc[parent])
      requires NodeAt(fs.ns, loc[parent] + [name]).None? && IsNewNode(kind, data)
      modifies this`nodes, this`mountTable, this`fs, this`loc, cache
      ensures Ready() && Later(old(mountTable), mountTable, old(loc), loc)
      ensures match FsSpec.CreatorAt(old(fs), old(loc)[parent])
              case None => r == Err(OperationNotSupported) && fs == old(fs)
              case Some(d) =>
                && r.Ok? && r.value in loc && loc[r.value] == old(loc)[parent] + [name]
                && fs == FsSpec.Create(old(fs), d, name, data)
                && NodeAt(fs.ns, loc[r.value]) == Some(Stable(FsSpec.NewNode(old(fs), d)))
      ensures cache.handles == if r.Ok? then old(cache.handles) + multiset{r.value} else old(cache.handles)
    {
      hide Represents, NodeAt, DirectoryAt;
      RootsAreHeld(W(), loc, fs);
      ChildLocation(W(), loc, fs, parent, name);
      CreatedView(W(), loc, fs, parent, name, data);
      var node := CreateInDriver(parent, name, kind, data);
      if !node.Ok? {
        return node.PropagateFailure();
      }
      EntryInserted(W(), loc, fs, parent, node.value, name);
      var e := cache.Insert(Some(parent), node.value, name);
      loc := loc[e := loc[parent] + [name]];
      r := Ok(e);
    }

    // -------------------------------------------------------------------
    // Opening and closing
    // -------------------------------------------------------------------

    /** The entry to open, created if it is missing and the mode writes. */
    method FindOrCreate(path: string, mode: FileMode, ghost held: multiset<EntryId>) returns (r: Outcome<EntryId>)
      requires Ready() && cache.handles == held
      modifies this`nodes, this`mountTable, this`fs, this`loc, cache
      ensures Ready() && Later(old(mountTable), mountTable, old(loc), loc)
      ensures FindsOrCreates(old(fs), path, mode, fs, loc, r)
      ensures !r.Panic? ==> cache.handles == if r.Ok? then held + multiset{r.value} else held
    {
      hide Represents, NodeAt, LocGrows, SameRoots, RootsIn, DirectoryAt, Creates, FindsOrCreates,
           FsSpec.Resolve, FsSpec.ResolveParent;
      RootsAreHeld(W(), loc, fs);
      var resolved := ResolvePath(path);
      RootsStay(old(mountTable), mountTable, held);
      if !resolved.Ok? {
        FindFails(fs, path, mode, loc, resolved);
        return resolved.PropagateFailure();
      }
      if resolved.value.Some? {
        r := FoundEntry(resolved.value.value, mode, held);
        FindFinds(fs, path, mode, loc, resolved.value.value, r);
      } else if !mode.IsMutating() {
        r := Err(EntryNotFound);
        FindMisses(fs, path, mode, loc);
      } else {
        ghost var mounts, locs := mountTable, loc;
        r := CreateAt(path, RegularFile, RamFile([]), held);
        LaterIsTransitive(old(mountTable), mounts, mountTable, old(loc), locs, loc, held);
        FindCreates(old(fs), path, mode, fs, loc, r);
      }
    }

    /** What opening finds at an existing entry. */
    method FoundEntry(e: EntryId, mode: FileMode, ghost held: multiset<EntryId>) returns (r: Outcome<EntryId>)
      requires Ready() && e in loc && cache.handles == held + multiset{e} && RootsIn(mountTable, held)
      modifies cache
      ensures Ready() && NodeAt(fs.ns, loc[e]).Some?
      ensures r == if mode.IsMutating() && DirectoryAt(fs.ns, loc[e]) then Err(NotAFile) else Ok(e)
      ensures cache.handles == if r.Ok? then held + multiset{r.value} else held
    {
      hide Represents, NodeAt;
      RootsAreHeld(W(), loc, fs);
      EntryNode(W(), loc, fs, e);
      if mode.IsMutating() && nodes[cache.entries[e].node].kind.Directory? {
        DropEntry(e, held);
        return Err(NotAFile);
      }
      r := Ok(e);
    }

    /** Creates what an unresolved path names, in its parent directory. */
    method CreateAt(path: string, kind: NodeKind, data: NodeData,
                    ghost held: multiset<EntryId>) returns (r: Outcome<EntryId>)
      requires Ready() && cache.handles == held && RootsIn(mountTable, held)
      requires FsSpec.Resolve(fs.ns, path) == Ok(None) && IsNewNode(kind, data)
      modifies this`nodes, this`mountTable, this`fs, this`loc, cache
      ensures Ready() && Later(old(mountTable), mountTable, old(loc), loc)
      ensures Creates(old(fs), FsSpec.ResolveParent(old(fs).ns, path), data, fs, loc, r)
      ensures !r.Panic? ==> cache.handles == if r.Ok? then held + multiset{r.value} else held
    {
      hide Represents, NodeAt, LocGrows, SameRoots, RootsIn, DirectoryAt,
           FsSpec.Resolve, FsSpec.ResolveParent, FsSpec.CreatorAt, FsSpec.Create;
      var target := ResolvePathParentDirectory(path);
      if !target.Ok? {
        return target.PropagateFailure();
      }
      var (parent, name) := target.value;
      RootsStay(old(mountTable), mountTable, held);
      FreeTarget(W(), loc, fs, path);
      ghost var mounts, locs := mountTable, loc;
      r := CreateEntry(parent, name, kind, data);
      LaterIsTransitive(old(mountTable), mounts, mountTable, old(loc), locs, loc, held);
      if r.Ok? {
        RootsInMore(mountTable, held, multiset{r.value});
        DropEntry(parent, held + multiset{r.value});
      } else {
        DropEntry(parent, held);
      }
    }

    /** Opens the node of a resolved entry; the entry itself is let go of. A hook
        that fails leaves the link count as it was. */
    method OpenEntry(entry: EntryId, mode: FileMode, hook: Option<IoError>, ghost held: multiset<EntryId>)
      returns (r: Outcome<FileDescriptor>)
      requires Ready() && entry in loc && cache.handles == held + multiset{entry} && RootsIn(mountTable, held)
      requires NodeAt(fs.ns, loc[entry]).Some?
      modifies this`nodes, this`files, this`nextFd, this`fs, cache
      ensures Ready() && cache.handles == held
      ensures (fs, r) == FsSpec.OpenNode(old(fs), NodeAt(old(fs).ns, loc[entry]).value, mode, hook)
    {
      hide Represents, NodeAt;
      RootsAreHeld(W(), loc, fs);
      EntryNode(W(), loc, fs, entry);
      OpenableEntry(W(), loc, fs, entry, mode);
      var node := cache.entries[entry].node;
      ghost var before := nodes;
      nodes := WithLinks(nodes, node, nodes[node].links + 1);
      if hook.Some? {
        nodes := WithLinks(nodes, node, nodes[node].links - 1);
        assert nodes == before;
        DropEntry(entry, held);
        return Err(hook.value);
      }
      NextFdIsFree(old(W()), loc, fs);
      FileOpened(old(W()), loc, fs, node, mode);
      ghost var v := ViewOf(before, node);
      r := Ok(nextFd);
      files := files[nextFd := File(node, mode, 0)];
      nextFd := nextFd + 1;
      fs := FsSpec.OpenNode(fs, v, mode, None).0;
      DropEntry(entry, held);
    }

    /** Opens a path. The reply and the state are the cacheless specification's. */
    method Open(path: string, mode: FileMode, hook: Option<IoError>) returns (r: Outcome<FileDescriptor>)
      requires Valid()
      modifies this`nodes, this`mountTable, this`fs, this`loc, this`files, this`nextFd, cache
      ensures (fs, r) == FsSpec.Open(old(fs), path, mode, hook)
      ensures !r.Panic? ==> Valid()
    {
      hide Represents, RootHandles, NodeAt, LocGrows, SameRoots, RootsIn, FsSpec.FindOrCreate;
      ghost var held := cache.handles;
      RootsAreHeld(W(), loc, fs);
      var entry := FindOrCreate(path, mode, held);
      RootsStay(old(mountTable), mountTable, held);
      SameRootHandles(old(mountTable), mountTable);
      if !entry.Ok? {
        return entry.PropagateFailure();
      }
      r := OpenEntry(entry.value, mode, hook, held);
    }

    /** Closes a descriptor. A second close of it fails and changes nothing. */
    method Close(fd: FileDescriptor, flush: Option<IoError>) returns (r: Outcome<()>)
      requires Valid()
      modifies this`nodes, this`files, this`fs
      ensures (fs, r) == FsSpec.Close(old(fs), fd, flush)
      ensures Valid()
    {
      hide Represents, RootHandles;
      FilesAreSpecified(W(), loc, fs, fd);
      if fd !in files {
        return Err(InvalidFile);
      }
      if flush.Some? {
        return Err(flush.value);
      }
      FileClosed(W(), loc, fs, fd);
      var node := files[fd].node;
      files := files - {fd};
      nodes := WithLinks(nodes, node, nodes[node].links - 1);
      fs := FsSpec.Close(fs, fd, None).0;
      r := Ok(());
    }

    /** Looks a path up and hands the entry to the client: the very entry that any
        client already holds for the same place. */
    method Stat(path: string) returns (r: Outcome<EntryId>)
      requires Valid()
      modifies this`nodes, this`mountTable, this`loc, this`clients, cache
      ensures Located(loc, FsSpec.Stat(fs, path), r)
      ensures clients == if r.Ok? then old(clients) + multiset{r.value} else old(clients)
      ensures r.Ok? ==> OnlyEntryThere(loc, old(clients), r.value)
      ensures Valid()
    {
      hide Represents, RootHandles, FsSpec.Resolve, LocGrows, SameRoots, OnlyEntryThere;
      var resolved := ResolvePath(path);
      SameRootHandles(old(mountTable), mountTable);
      if !resolved.Ok? {
        return resolved.PropagateFailure();
      }
      if resolved.value.None? {
        return Err(EntryNotFound);
      }
      r := Ok(resolved.value.value);
      GiveToClient(resolved.value.value);
      HeldEntriesAreUnique(W(), loc, fs, r.value, old(clients));
    }

    /** Makes a directory and hands its entry to the client. */
    method CreateDirectory(path: string) returns (r: Outcome<EntryId>)
      requires Valid()
      modifies this`nodes, this`mountTable, this`fs, this`loc, this`clients, cache
      ensures fs == FsSpec.CreateDirectory(old(fs), path).0
      ensures Located(loc, FsSpec.CreateDirectory(old(fs), path).1, r)
      ensures clients == if r.Ok? then old(clients) + multiset{r.value} else old(clients)
      ensures !r.Panic? ==> Valid()
    {
      hide Represents, RootHandles, LocGrows, SameRoots, RootsIn, Creates,
           FsSpec.Resolve, FsSpec.ResolveParent, FsSpec.CreateDirectory;
      ghost var held := cache.handles;
      RootsAreHeld(W(), loc, fs);
      CreateDirectoryFails(fs, path);
      var resolved := ResolvePath(path);
      RootsStay(old(mountTable), mountTable, held);
      SameRootHandles(old(mountTable), mountTable);
      if !resolved.Ok? {
        return resolved.PropagateFailure();
      }
      if resolved.value.Some? {
        DropEntry(resolved.value.value, held);
        return Err(AlreadyExists);
      }
      ghost var mounts := mountTable;
      r := CreateAt(path, Directory, RamDirectory(map[]), held);
      CreateDirectoryCreates(old(fs), path, fs, loc, r);
      SameRootHandles(mounts, mountTable);
      if r.Ok? {
        GiveToClient(r.value);
      }
    }

    /** A call's own handle becomes the client's. */
    method GiveToClient(e: EntryId)
      requires Ready() && cache.handles == clients + RootHandles(mountTable) + multiset{e}
      modifies this`clients
      ensures Valid() && clients == old(clients) + multiset{e}
    {
      hide Represents, RootHandles;
      clients := clients + multiset{e};
    }

    /** A client lets go of an entry it holds. What is still held, at it or below,
        stays as it was; nothing else does. */
    method DropHandle(e: EntryId)
      requires Valid()
      modifies this`clients, cache
      ensures Valid() && clients == old(clients) - multiset{e}
      ensures Survives(old(cache.Value()), cache.Value())
      ensures LiveIffHeld(cache.Value(), clients + RootHandles(mountTable))
    {
      hide Represents, RootHandles, AtOrBelow, Coherent;
      if e in clients {
        clients := clients - multiset{e};
        HeldByMounts(mountTable, clients);
        DropEntry(e, clients + RootHandles(mountTable));
      }
      CacheIsCoherent(W(), loc, fs);
      forall x {
        LivesExactlyWhileHeld(cache.Value(), x);
      }
    }

    method PruneDirectoryCache()
      requires Valid()
      modifies cache
      ensures Valid() && cache.Value() == Prune(old(cache.Value()))
    {
      hide Represents, RootHandles, Coherent;
      CacheIsCoherent(W(), loc, fs);
      CachePruned(W(), loc, fs);
      cache.Prune();
    }

    // -------------------------------------------------------------------
    // Mounting
    // -------------------------------------------------------------------

    /** Makes a file system instance and enters its root in the cache and the
        mount table. */
    method AddMount(parent: Option<EntryId>, name: string, kind: FsKind, ghost at: Location,
                    ghost others: multiset<EntryId>)
      returns (id: MountId)
      requires cache.handles == others + RootHandles(mountTable)
      requires Ready() && CanInsert(cache.Value(), parent, name) && Belongs(loc, parent, name, at)
      requires NodeAt(fs.ns, at).None? && (at != [] ==> DirectoryAt(fs.ns, Parent(at)))
      modifies this`nodes, this`mountTable, this`nextMount, this`loc, this`fs, cache
      ensures Ready() && id == old(fs).nextMount && fs == FsSpec.AddMount(old(fs), at, kind)
      ensures cache.handles == others + RootHandles(mountTable)
    {
      hide Represents, RootHandles, NodeAt, CanInsert, Belongs, DirectoryAt;
      FileSystemMounted(W(), loc, fs, parent, name, at, kind);
      MountIdIsFresh(W(), loc, fs);
      MountedRootHandles(mountTable, nextMount, cache.nextId, FileSystem(kind, 1));
      id := nextMount;
      nextMount := nextMount + 1;
      nodes := nodes[RootNode(id) := FsNode(Directory, 1, FsSpec.RootData(kind))];
      var root := cache.Insert(parent, RootNode(id), name);
      mountTable := mountTable[id := VfsMount(root, FileSystem(kind, 1))];
      loc := loc[root := at];
      fs := FsSpec.AddMount(fs, at, kind);
    }

    /** Mounts the root of the whole tree. */
    method MountAtRoot(source: string, kind: FsKind) returns (r: Outcome<MountId>)
      requires Valid()
      modifies this`nodes, this`mountTable, this`nextMount, this`loc, this`fs, cache
      ensures (fs, r) == FsSpec.MountAtRoot(old(fs), source, kind)
      ensures !r.Panic? ==> Valid()
    {
      hide Represents, RootHandles, NodeAt, FsSpec.AddMount;
      RootEntry(W(), loc, fs);
      ghost var key := Key(NULL_ID, ROOT_NAME);
      if Upgrade(cache.Value(), key).Some? {
        EntryCloned(W(), loc, fs, Upgrade(cache.Value(), key).value);
      }
      var root := cache.GetRoot();
      if root.Some? {
        HeldByMounts(mountTable, clients);
        DropEntry(root.value, clients + RootHandles(mountTable));
        return Err(AlreadyExists);
      }
      if source != "" {
        return Panic;
      }
      NothingMounted(fs);
      var id := AddMount(None, ROOT_NAME, kind, [], clients);
      r := Ok(id);
    }

    /** Mounts at a path that does not resolve, below a parent that does. */
    method MountBelow(source: string, target: string, kind: FsKind) returns (r: Outcome<MountId>)
      requires Valid()
      modifies this`nodes, this`mountTable, this`nextMount, this`loc, this`fs, cache
      ensures (fs, r) == FsSpec.MountBelow(old(fs), source, target, kind)
      ensures !r.Panic? ==> Valid()
    {
      hide Represents, RootHandles, LocGrows, SameRoots, RootsIn, FsSpec.Resolve, FsSpec.ResolveParent, FsSpec.AddMount;
      ghost var held := cache.handles;
      RootsAreHeld(W(), loc, fs);
      var resolved := ResolvePath(target);
      SameRootHandles(old(mountTable), mountTable);
      if !resolved.Ok? {
        return resolved.PropagateFailure();
      }
      if resolved.value.Some? {
        return Panic;
      }
      ghost var mounts := mountTable;
      var parent := ResolvePathParentDirectory(target);
      SameRootHandles(mounts, mountTable);
      if !parent.Ok? {
        return parent.PropagateFailure();
      }
      if source != "" {
        return Panic;
      }
      FreeTarget(W(), loc, fs, target);
      var id := MountUnder(parent.value.0, parent.value.1, kind);
      r := Ok(id);
    }

    /** Mounts under a free name of a resolved parent, and lets go of the parent. */
    method MountUnder(parent: EntryId, name: string, kind: FsKind) returns (id: MountId)
      requires Ready() && parent in loc && cache.handles == clients + RootHandles(mountTable) + multiset{parent}
      requires NodeAt(fs.ns, loc[parent] + [name]).None? && DirectoryAt(fs.ns, loc[parent])
      modifies this`nodes, this`mountTable, this`nextMount, this`loc, this`fs, cache
      ensures Valid() && id == old(fs).nextMount && fs == FsSpec.AddMount(old(fs), old(loc)[parent] + [name], kind)
    {
      hide Represents, RootHandles, NodeAt, DirectoryAt, FsSpec.AddMount;
      RootsAreHeld(W(), loc, fs);
      ChildLocation(W(), loc, fs, parent, name);
      assert Parent(loc[parent] + [name]) == loc[parent];
      id := AddMount(Some(parent), name, kind, loc[parent] + [name], clients + multiset{parent});
      HeldByMounts(mountTable, clients);
      DropEntry(parent, clients + RootHandles(mountTable));
    }

    /** Mounts a file system of a registered kind. */
    method Mount(source: string, target: string, kind: Option<string>) returns (r: Outcome<MountId>)
      requires Valid()
      modifies this`nodes, this`mountTable, this`nextMount, this`loc, this`fs, cache
      ensures (fs, r) == FsSpec.Mount(old(fs), source, target, kind)
      ensures !r.Panic? ==> Valid()
    {
      hide Represents, RootHandles, FsSpec.MountAtRoot, FsSpec.MountBelow;
      if kind.None? {
        return Panic;
      }
      var ty;
      match kind.value {
        case "ramfs" => ty := Some(RamFs);
        case "devfs" => ty := Some(DevFs);
        case _ => return Err(FileSystemTypeNotFound);
      }
      if target == "/" {
        r := MountAtRoot(source, ty.value);
      } else {
        r := MountBelow(source, target, ty.value);
      }
    }

    // -------------------------------------------------------------------
    // Reading and writing
    // -------------------------------------------------------------------

    /** The ramfs driver's read. */
    method RamRead(node: NodeRef, offset: nat, buffer: array<byte>) returns (n: nat)
      requires node in nodes && nodes[node].data.RamFile?
      modifies buffer
      ensures Filled(old(buffer[..]), buffer[..], FsSpec.Slice(nodes[node].data.bytes, offset, buffer.Length))
      ensures n == |FsSpec.Slice(nodes[node].data.bytes, offset, buffer.Length)|
      ensures n <= buffer.Length && forall i :: 0 <= i < n ==>
                offset + i < |nodes[node].data.bytes| && buffer[i] == nodes[node].data.bytes[offset + i]
    {
      var data := nodes[node].data.bytes;
      if offset > |data| {
        return 0;
      }
      n := FsSpec.Min(buffer.Length, |data| - offset);
      Fill(buffer, data[offset..offset + n]);
    }

    /** A character device's read. */
    method DeviceRead(device: DeviceKind, buffer: array<byte>) returns (r: Outcome<nat>)
      modifies buffer
      ensures match device
              case ZeroDevice => r == Ok(buffer.Length) && forall i :: 0 <= i < buffer.Length ==> buffer[i] == 0
              case NullDevice => r == Err(OperationNotSupported) && buffer[..] == old(buffer[..])
    {
      match device {
        case ZeroDevice =>
          Fill(buffer, seq(buffer.Length, i => 0));
          r := Ok(buffer.Length);
        case NullDevice =>
          r := Err(OperationNotSupported);
      }
    }

    /** Reads at the descriptor's offset, which advances by what was read. */
    method Read(fd: FileDescriptor, buffer: array<byte>) returns (r: Outcome<nat>)
      requires Valid()
      modifies this`files, this`fs, buffer
      ensures Valid()
      ensures fs == FsSpec.ReadFile(old(fs), fd, buffer.Length).0
      ensures Delivers(old(buffer[..]), buffer[..], FsSpec.ReadFile(old(fs), fd, buffer.Length).1, r)
    {
      hide Represents, RootHandles;
      FilesAreSpecified(W(), loc, fs, fd);
      if fd !in files {
        return Err(InvalidFile);
      }
      ReadFileOf(W(), loc, fs, fd, buffer.Length);
      var f := files[fd];
      if nodes[f.node].kind.Directory? {
        return Panic;
      }
      if !f.mode.Read? {
        return Err(InvalidMode);
      }
      ghost var fs' := FsSpec.ReadFile(fs, fd, buffer.Length).0;
      if mountTable[f.node.mount].fs.kind.RamFs? {
        var n := RamRead(f.node, f.position, buffer);
        r := Ok(n);
      } else {
        r := DeviceRead(devices[nodes[f.node].data.name], buffer);
        assert r.Ok? ==> buffer[..] == FsSpec.Zeros(buffer.Length);
      }
      if r.Ok? {
        PositionMoved(W(), loc, fs, fs', fd, r.value);
        files := MovedBy(files, fd, r.value);
        fs := fs';
      }
    }

    /** The ramfs driver's write: grow with zeros if needed, then overwrite. */
    method RamWrite(node: NodeRef, offset: nat, buffer: seq<byte>) returns (n: nat)
      requires node in nodes && nodes[node].data.RamFile?
      modifies this`nodes
      ensures n == |buffer|
      ensures var was := old(nodes)[node];
              nodes == old(nodes)[node := was.(data := RamFile(FsSpec.Splice(was.data.bytes, offset, buffer)))]
      ensures SplicedAt(old(nodes)[node].data.bytes, nodes[node].data.bytes, offset, buffer)
    {
      hide SplicedAt;
      SpliceBytes(nodes[node].data.bytes, offset, buffer);
      var data := nodes[node].data.bytes;
      var end := offset + |buffer|;
      if end > |data| {
        data := data + seq(end - |data|, i => 0);
        assert data == nodes[node].data.bytes + FsSpec.Zeros(end - |nodes[node].data.bytes|);
      }
      data := data[..offset] + buffer + data[end..];
      nodes := nodes[node := nodes[node].(data := RamFile(data))];
      n := |buffer|;
    }

    /** Writes at the descriptor's offset, which advances by what was written. */
    method Write(fd: FileDescriptor, buffer: seq<byte>) returns (r: Outcome<nat>)
      requires Valid()
      modifies this`files, this`fs, this`nodes
      ensures Valid()
      ensures (fs, r) == FsSpec.WriteFile(old(fs), fd, buffer)
    {
      hide Represents, RootHandles, FsSpec.Splice;
      FilesAreSpecified(W(), loc, fs, fd);
      if fd !in files {
        return Err(InvalidFile);
      }
      WriteFileOf(W(), loc, fs, fd, buffer);
      var f := files[fd];
      if nodes[f.node].kind.Directory? {
        return Panic;
      }
      if !f.mode.Write? {
        return Err(InvalidMode);
      }
      ghost var fs' := FsSpec.WriteFile(fs, fd, buffer).0;
      if mountTable[f.node.mount].fs.kind.RamFs? {
        FileWritten(W(), loc, fs, fs', fd, f.node, FsSpec.Splice(nodes[f.node].data.bytes, f.position, buffer), |buffer|);
        var n := RamWrite(f.node, f.position, buffer);
        files := MovedBy(files, fd, n);
        fs := fs';
        r := Ok(n);
      } else {
        match devices[nodes[f.node].data.name] {
          case NullDevice =>
            PositionMoved(W(), loc, fs, fs', fd, |buffer|);
            files := MovedBy(files, fd, |buffer|);
            fs := fs';
            r := Ok(|buffer|);
          case ZeroDevice =>
            r := Err(OperationNotSupported);
        }
      }
    }

    // -------------------------------------------------------------------
    // Listing
    // -------------------------------------------------------------------

    /** The ramfs driver's listing: its children. */
    method ListRam(dir: NodeRef) returns (ctx: DirectoryIterationContext)
      requires Ready() && dir in nodes && nodes[dir].data.RamDirectory?
      ensures ListsDriver(fs.ns, dir, ctx)
    {
      RamChildren(W(), loc, fs, dir);
      hide Represents;
      ctx := map[];
      var children := nodes[dir].data.children;
      var todo := children.Keys;
      while todo != {}
        invariant todo <= children.Keys
        invariant forall n :: n in ctx <==> n in children && n !in todo
        invariant forall n :: n in ctx ==> ctx[n] == DirectoryIterationEntry(children[n].id, nodes[children[n]].kind)
        decreases todo
      {
        var n :| n in todo;
        ctx := ctx[n := DirectoryIterationEntry(children[n].id, nodes[children[n]].kind)];
        todo := todo - {n};
      }
    }

    /** The devfs driver's listing: the device registry, with an id for each. */
    method ListDevices(dir: NodeRef) returns (ctx: DirectoryIterationContext)
      requires Ready() && dir in fs.ns.data && fs.ns.data[dir].NoData? && dir.mount in mountTable
      requires mountTable[dir.mount].fs.kind.DevFs? && fs.ns.devices == devices
      modifies this`mountTable
      ensures Ready() && SameRoots(old(mountTable), mountTable)
      ensures ListsDriver(fs.ns, dir, ctx)
    {
      hide Represents;
      ctx := map[];
      var todo := devices.Keys;
      while todo != {}
        invariant todo <= devices.Keys
        invariant Ready() && SameRoots(old(mountTable), mountTable)
        invariant mountTable[dir.mount].fs.kind.DevFs?
        invariant forall n :: n in ctx <==> n in devices && n !in todo
        invariant forall n :: n in ctx ==> ctx[n].kind.CharDevice?
        decreases todo
      {
        var n :| n in todo;
        DeviceNumbered(W(), loc, fs, dir.mount, nodes, n);
        ctx := ctx[n := DirectoryIterationEntry(mountTable[dir.mount].fs.nextNodeId, CharDevice)];
        mountTable := BumpNodeId(mountTable, dir.mount);
        todo := todo - {n};
      }
    }

    /** Adds the roots mounted in a directory to its listing. */
    method ListMounts(directory: EntryId, driver: DirectoryIterationContext) returns (ctx: DirectoryIterationContext)
      requires Ready() && directory in cache.entries && directory in loc
      ensures forall n :: n in ctx <==> n in driver || loc[directory] + [n] in fs.ns.mountAt
      ensures forall n :: n in ctx ==>
                ctx[n] == if loc[directory] + [n] in fs.ns.mountAt then DirectoryIterationEntry(0, Directory) else driver[n]
    {
      hide Represents;
      ctx := driver;
      var id := 0;
      while id < nextMount
        invariant 0 <= id <= nextMount
        invariant forall n :: n in ctx <==> n in driver || MountedBefore(id, directory, n)
        invariant forall n :: n in ctx ==>
                    ctx[n] == if MountedBefore(id, directory, n) then DirectoryIterationEntry(0, Directory) else driver[n]
      {
        if id in mountTable {
          MountRootNode(W(), loc, fs, id);
          var root := cache.entries[mountTable[id].root];
          if root.parent == Some(directory) {
            ctx := ctx[root.name := DirectoryIterationEntry(root.node.id, nodes[root.node].kind)];
          }
        }
        id := id + 1;
      }
      forall n ensures MountedBefore(id, directory, n) <==> loc[directory] + [n] in fs.ns.mountAt {
        MountedNames(W(), loc, fs, directory, n);
      }
    }

    ghost predicate MountedBefore(id: MountId, directory: EntryId, name: string)
      reads this, cache
    {
      exists m :: 0 <= m < id && m in mountTable && IsMountBelow(m, directory, name)
    }

    /** Lists a directory: exactly the names that resolve one step from it. */
    method ReadDirectory(path: string) returns (r: Outcome<DirectoryIterationContext>)
      requires Valid()
      modifies this`nodes, this`mountTable, this`loc, cache
      ensures Shows(FsSpec.ReadDirectory(fs, path), r)
      ensures Valid()
    {
      hide Represents, RootHandles, LocGrows, SameRoots, RootsIn, FsSpec.Resolve, FsSpec.Listing;
      ghost var held := cache.handles;
      RootsAreHeld(W(), loc, fs);
      var resolved := ResolvePath(path);
      RootsStay(old(mountTable), mountTable, held);
      SameRootHandles(old(mountTable), mountTable);
      if !resolved.Ok? {
        return resolved.PropagateFailure();
      }
      if resolved.value.None? {
        return Err(EntryNotFound);
      }
      ghost var mounts := mountTable;
      r := ListEntry(resolved.value.value);
      RootsStay(mounts, mountTable, held);
      SameRootHandles(mounts, mountTable);
      DropEntry(resolved.value.value, held);
    }

    method ListEntry(directory: EntryId) returns (r: Outcome<DirectoryIterationContext>)
      requires Ready() && directory in cache.handles && directory in loc
      modifies this`mountTable
      ensures Ready() && SameRoots(old(mountTable), mountTable)
      ensures NodeAt(fs.ns, loc[directory]).Some?
      ensures if DirectoryAt(fs.ns, loc[directory])
              then r.Ok? && FsSpec.Listing(fs.ns, loc[directory]) == Shown(r.value)
              else r == Err(NotADirectory)
    {
      hide Represents, NodeAt, FsSpec.Listing;
      RootsAreHeld(W(), loc, fs);
      EntryNode(W(), loc, fs, directory);
      var node := cache.entries[directory].node;
      if !nodes[node].kind.Directory? {
        return Err(NotADirectory);
      }
      DirectoryData(W(), loc, fs, node);
      var ctx;
      if mountTable[node.mount].fs.kind.RamFs? {
        ctx := ListRam(node);
      } else {
        ctx := ListDevices(node);
      }
      ghost var driver := ctx;
      ctx := ListMounts(directory, ctx);
      ListingIsShown(W(), loc, fs, directory, driver, ctx);
      r := Ok(ctx);
    }

    // -------------------------------------------------------------------
    // Runs
    // -------------------------------------------------------------------

    /** The location of a live entry: the names along its parent chain. */
    method PathOf(e: EntryId) returns (l: Location)
      requires Ready() && e in cache.entries
      ensures e in loc && l == loc[e]
    {
      hide Represents;
      l := [];
      var x := e;
      ParentLocation(W(), loc, fs, x);
      while cache.entries[x].parent.Some?
        invariant x in cache.entries && x in loc && e in loc && loc[e] == loc[x] + l
        decreases x
      {
        ParentLocation(W(), loc, fs, x);
        l := [cache.entries[x].name] + l;
        x := cache.entries[x].parent.value;
      }
      ParentLocation(W(), loc, fs, x);
    }

    method ReadBytes(fd: FileDescriptor, size: nat) returns (r: Outcome<seq<byte>>)
      requires Valid()
      modifies this`files, this`fs
      ensures Valid() && (fs, r) == FsSpec.ReadFile(old(fs), fd, size)
    {
      hide Represents, RootHandles, FsSpec.ReadFile;
      var buffer := new byte[size](i => 0);
      var n := Read(fd, buffer);
      if n.Ok? {
        r := Ok(buffer[..n.value]);
      } else {
        r := n.PropagateFailure();
      }
    }

    /** Tells the client where the entry it was given is. */
    method Locate(e: Outcome<EntryId>) returns (l: Outcome<Location>)
      requires e.Ok? ==> Valid() && e.value in clients
      ensures forall spec :: Located(loc, spec, e) ==> l == spec
      ensures l.Panic? <==> e.Panic?
    {
      hide Represents, RootHandles;
      if !e.Ok? {
        return e.PropagateFailure();
      }
      RootsAreHeld(W(), loc, fs);
      var path := PathOf(e.value);
      l := Ok(path);
    }

    /** One call of a client: the reply and the new state are the specification's. */
    method Step(op: FsSpec.Op) returns (reply: FsSpec.Reply)
      requires Valid()
      modifies this, cache
      ensures (fs, reply) == FsSpec.Step(old(fs), op)
      ensures !FsSpec.IsPanic(reply) ==> Valid()
    {
      hide Valid, Ready, LiveIffHeld, OnlyEntryThere, Survives, Prune, Located, Shown, FsSpec.Mount, FsSpec.Open,
           FsSpec.Close, FsSpec.ReadFile, FsSpec.WriteFile, FsSpec.ReadDirectory, FsSpec.CreateDirectory, FsSpec.Stat;
      match op {
        case MountOp(source, target, kind) =>
          var id := Mount(source, target, kind);
          reply := FsSpec.Mounted(id);
        case OpenOp(path, mode, hook) =>
          var fd := Open(path, mode, hook);
          reply := FsSpec.Opened(fd);
        case CloseOp(fd, flush) =>
          var done := Close(fd, flush);
          reply := FsSpec.Closed(done);
        case ReadOp(fd, size) =>
          var bytes := ReadBytes(fd, size);
          reply := FsSpec.GotBytes(bytes);
        case WriteOp(fd, buffer) =>
          var count := Write(fd, buffer);
          reply := FsSpec.Written(count);
        case ListOp(path) =>
          var listing := ReadDirectory(path);
          reply := FsSpec.Entries(if listing.Ok? then Ok(Shown(listing.value)) else listing.PropagateFailure());
        case MkdirOp(path) =>
          var e := CreateDirectory(path);
          var l := Locate(e);
          reply := FsSpec.Entry(l);
        case StatOp(path) =>
          var e := Stat(path);
          var l := Locate(e);
          reply := FsSpec.Entry(l);
        case DropOp(entry) =>
          DropHandle(entry);
          reply := FsSpec.Silent;
        case PruneOp =>
          PruneDirectoryCache();
          reply := FsSpec.Silent;
      }
    }

    /** A whole run of client calls, up to the first panic. */
    method Run(ops: seq<FsSpec.Op>) returns (replies: seq<FsSpec.Reply>)
      requires Valid()
      modifies this, cache
      ensures (fs, replies) == FsSpec.Run(old(fs), ops)
      ensures (forall i :: 0 <= i < |replies| ==> !FsSpec.IsPanic(replies[i])) ==> Valid()
    {
      hide Represents, RootHandles, FsSpec.Step;
      replies := [];
      var i := 0;
      assert ops[0..] == ops && [] + FsSpec.Run(fs, ops).1 == FsSpec.Run(fs, ops).1;
      while i < |ops|
        invariant 0 <= i <= |ops| && Valid()
        invariant FsSpec.Run(old(fs), ops).0 == FsSpec.Run(fs, ops[i..]).0
        invariant FsSpec.Run(old(fs), ops).1 == replies + FsSpec.Run(fs, ops[i..]).1
      {
        assert ops[i..][0] == ops[i] && ops[i..][1..] == ops[i + 1..];
        var reply := Step(ops[i]);
        if FsSpec.IsPanic(reply) {
          replies := replies + [reply];
          assert FsSpec.IsPanic(replies[|replies| - 1]);
          return;
        }
        assert replies + ([reply] + FsSpec.Run(fs, ops[i + 1..]).1) == (replies + [reply]) + FsSpec.Run(fs, ops[i + 1..]).1;
        replies := replies + [reply];
        i := i + 1;
      }
      assert ops[i..] == [] && replies + [] == replies;
    }
  }

  /** For every run of client calls from boot, with any interleaving of cache
      drops and prunes, every reply is the cacheless specification's. */
  method RunFromBoot(devices: map<string, DeviceKind>, ops: seq<FsSpec.Op>) returns (replies: seq<FsSpec.Reply>)
    ensures replies == FsSpec.Run(FsSpec.Initial(devices), ops).1
  {
    var vfs := new VirtualFileSystem(devices);
    replies := vfs.Run(ops);
  }

  /** Overwrites the front of a buffer. */
  method Fill(buffer: array<byte>, bytes: seq<byte>)
    requires |bytes| <= buffer.Length
    modifies buffer
    ensures Filled(old(buffer[..]), buffer[..], bytes)
  {
    var i := 0;
    while i < |bytes|
      invariant 0 <= i <= |bytes|
      invariant buffer[..i] == bytes[..i] && buffer[i..] == old(buffer[i..])
    {
      buffer[i] := bytes[i];
      assert buffer[..i + 1] == buffer[..i] + [bytes[i]];
      i := i + 1;
    }
  }
}
