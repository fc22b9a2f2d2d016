/**
  What each call answers and changes, for the location its path names, in terms
  of the nodes there and above, down to names, modes and bytes.
 */
module CallLaws {
  import opened FsTypes
  import opened Namespace
  import opened FsSpec
  import opened FsInvariants
  import opened PathLaws

  /** A path that names this location, without dots, below a mounted root. */
  ghost predicate Named(fs: Fs, l: Location) {
    Invariant(fs) && [] in fs.ns.mountAt && Nameable(l) && DotFree(l)
  }

  /** A ramfs directory: the only kind of place where nodes can be made. */
  predicate RamDirectoryAt(fs: Fs, l: Location) {
    var v := NodeAt(fs.ns, l);
    v.Some? && v.value.Stable? && v.value.node in fs.ns.data && fs.ns.data[v.value.node].RamDirectory?
  }

  /** One new node with this data at `l`; everything else is where and as it was. */
  ghost predicate Adds(fs: Fs, fs': Fs, l: Location, data: NodeData) {
    && AddsNode(fs, fs', l, data)
    && (forall x :: x != l ==> NodeAt(fs'.ns, x) == NodeAt(fs.ns, x))
    && (forall r :: r in fs.ns.data && fs.ns.data[r].RamFile? ==> r in fs'.ns.data && fs'.ns.data[r] == fs.ns.data[r])
    && fs'.ns.mountAt == fs.ns.mountAt && fs'.ns.devices == fs.ns.devices
    && fs'.files == fs.files && fs'.nextFd == fs.nextFd
  }

  predicate AddsNode(fs: Fs, fs': Fs, l: Location, data: NodeData) {
    var v := NodeAt(fs'.ns, l);
    && v.Some? && v.value.Stable?
    && v.value.node !in fs.ns.data
    && v.value.node in fs'.ns.data && fs'.ns.data[v.value.node] == data
  }

  lemma CreatorsAreRamDirectories(fs: Fs, l: Location)
    requires Invariant(fs)
    ensures CreatorAt(fs, l).Some? <==> RamDirectoryAt(fs, l)
    ensures CreatorAt(fs, l).Some? ==>
              NodeAt(fs.ns, l) == Some(Stable(CreatorAt(fs, l).value)) && Creator(fs, CreatorAt(fs, l).value)
  {
    hide NodeAt, WellFormed, TreeShaped, FilesOk;
  }

  lemma CreationMoves(fs: Fs, l: Location, d: NodeRef, data: NodeData, x: Location)
    requires Invariant(fs) && l != [] && CanCreate(fs, Parent(l), d, Last(l), data)
    ensures NodeAt(Create(fs, d, Last(l), data).ns, x) == if x == l then Some(Stable(NewNode(fs, d))) else NodeAt(fs.ns, x)
  {
    hide NodeAt, WellFormed, TreeShaped, IdsFresh, FilesOk, CanAddChild;
    assert Parent(l) + [Last(l)] == l;
    CreationAllowed(fs, Parent(l), d, Last(l), data);
    AddChildAddsExactlyOne(fs.ns, l, d, NewNode(fs, d), data, x);
  }

  lemma CreationContents(fs: Fs, d: NodeRef, name: string, data: NodeData)
    requires Invariant(fs) && Creator(fs, d)
    ensures var fs', r := Create(fs, d, name, data), NewNode(fs, d);
            && r !in fs.ns.data && r in fs'.ns.data && fs'.ns.data[r] == data
            && (forall x :: x in fs.ns.data && fs.ns.data[x].RamFile? ==> x in fs'.ns.data && fs'.ns.data[x] == fs.ns.data[x])
            && fs'.ns.mountAt == fs.ns.mountAt && fs'.ns.devices == fs.ns.devices
            && fs'.files == fs.files && fs'.nextFd == fs.nextFd
  {
    hide WellFormed, TreeShaped, FilesOk;
  }

  lemma CreationAdds(fs: Fs, l: Location, data: NodeData)
    requires Invariant(fs) && l != [] && NodeAt(fs.ns, l).None? && RamDirectoryAt(fs, Parent(l))
    requires data == RamFile([]) || data == RamDirectory(map[])
    ensures CreatorAt(fs, Parent(l)).Some? && Creator(fs, CreatorAt(fs, Parent(l)).value)
    ensures var fs' := Create(fs, CreatorAt(fs, Parent(l)).value, Last(l), data);
            Adds(fs, fs', l, data) && Invariant(fs')
            && NodeAt(fs'.ns, l) == Some(Stable(NewNode(fs, CreatorAt(fs, Parent(l)).value)))
  {
    hide NodeAt, Invariant, CreatorAt, Creator, Create, NewNode, RamDirectoryAt, Grows;
    CreatorsAreRamDirectories(fs, Parent(l));
    var d := CreatorAt(fs, Parent(l)).value;
    assert Parent(l) + [Last(l)] == l;
    CreateKeepsInvariant(fs, Parent(l), d, Last(l), data);
    CreationContents(fs, d, Last(l), data);
    var fs' := Create(fs, d, Last(l), data);
    forall x ensures NodeAt(fs'.ns, x) == if x == l then Some(Stable(NewNode(fs, d))) else NodeAt(fs.ns, x) {
      CreationMoves(fs, l, d, data, x);
    }
  }

  /** The root is there, and what is not there has a parent or none. */
  lemma NotTheRoot(fs: Fs, l: Location)
    requires Named(fs, l)
    ensures NodeAt(fs.ns, []).Some? && DirectoryAt(fs.ns, [])
    ensures NodeAt(fs.ns, l).None? ==> l != []
  {
    assert IsDirectory(fs.ns, Stable(RootNode(fs.ns.mountAt[[]])));
  }

  // ---------------------------------------------------------------------
  // Looking
  // ---------------------------------------------------------------------

  lemma StatReply(fs: Fs, l: Location)
    requires Named(fs, l)
    ensures Stat(fs, PathTo(l)) ==
            if NodeAt(fs.ns, l).Some? then Ok(l)
            else if Blocked(fs.ns, l) then Err(NotADirectory)
            else Err(EntryNotFound)
  {
    hide NodeAt, WellFormed, Nameable, Resolve, Blocked, PathTo;
    ResolveNames(fs.ns, l);
  }

  /** A listing shows each name one step below with the kind of the node there, and
      with its id unless it is a device. */
  ghost predicate ListsWhatIsThere(ns: Namespace, l: Location, m: map<string, Listed>) {
    forall n ::
      && (n in m <==> NodeAt(ns, l + [n]).Some?)
      && (n in m ==> ShowsNode(ns, NodeAt(ns, l + [n]).value, m[n]))
  }

  predicate ShowsNode(ns: Namespace, v: View, x: Listed) {
    match v
    case DeviceNode(_, _) => x == Listed(CharDevice, None)
    case Stable(r) =>
      r in ns.data && x == Listed(if ns.data[r].RamFile? then RegularFile else Directory, Some(r.id))
  }

  lemma ListReply(fs: Fs, l: Location)
    requires Named(fs, l)
    ensures var r := ReadDirectory(fs, PathTo(l));
            if NodeAt(fs.ns, l).None? then
              r == if Blocked(fs.ns, l) then Err(NotADirectory) else Err(EntryNotFound)
            else if !DirectoryAt(fs.ns, l) then r == Err(NotADirectory)
            else r.Ok? && ListsWhatIsThere(fs.ns, l, r.value)
  {
    hide NodeAt, WellFormed, Nameable, Resolve, Blocked, PathTo, Listing, TreeShaped, FilesOk;
    ResolveNames(fs.ns, l);
    if DirectoryAt(fs.ns, l) {
      forall n
        ensures n in Listing(fs.ns, l) <==> NodeAt(fs.ns, l + [n]).Some?
        ensures n in Listing(fs.ns, l) ==> ShowsNode(fs.ns, NodeAt(fs.ns, l + [n]).value, Listing(fs.ns, l)[n])
      {
        ListingAgreesWithLookup(fs.ns, l, n);
        if NodeAt(fs.ns, l + [n]).Some? {
          WhatIsThereCanBeOpened(fs.ns, l + [n], Read);
        }
      }
    }
  }

  // ---------------------------------------------------------------------
  // Making directories
  // ---------------------------------------------------------------------

  lemma MkdirReply(fs: Fs, l: Location)
    requires Named(fs, l)
    ensures var (fs', r) := CreateDirectory(fs, PathTo(l));
            if NodeAt(fs.ns, l).Some? then fs' == fs && r == Err(AlreadyExists)
            else if Blocked(fs.ns, l) then fs' == fs && r == Err(NotADirectory)
            else
              && l != []
              && if NodeAt(fs.ns, Parent(l)).None? then fs' == fs && r == Err(EntryNotFound)
                 else if !RamDirectoryAt(fs, Parent(l)) then fs' == fs && r == Err(OperationNotSupported)
                 else r == Ok(l) && Adds(fs, fs', l, RamDirectory(map[])) && Invariant(fs')
  {
    hide NodeAt, WellFormed, TreeShaped, FilesOk, IdsFresh, Nameable, Resolve, ResolveParent, Blocked, PathTo, Adds, CreatorAt, Create;
    ResolveNames(fs.ns, l);
    NotTheRoot(fs, l);
    if NodeAt(fs.ns, l).None? && !Blocked(fs.ns, l) {
      ParentNames(fs.ns, l);
      CreatorsAreRamDirectories(fs, Parent(l));
      assert Parent(l) + [Last(l)] == l;
      if RamDirectoryAt(fs, Parent(l)) {
        CreationAdds(fs, l, RamDirectory(map[]));
      }
    }
  }

  // ---------------------------------------------------------------------
  // Opening
  // ---------------------------------------------------------------------

  /** The next descriptor, at the start of a node; or the hook's error and nothing. */
  predicate HandsOut(fs: Fs, fs': Fs, v: View, mode: FileMode, hook: Option<IoError>, r: Outcome<FileDescriptor>) {
    match hook
    case Some(e) => fs' == fs && r == Err(e)
    case None =>
      && r == Ok(fs.nextFd)
      && fs' == fs.(files := fs.files[fs.nextFd := OpenFile(v, mode, 0)], nextFd := fs.nextFd + 1)
  }

  /** Opening makes an empty file first, in `fs1`. */
  ghost predicate MakesAndOpens(fs: Fs, fs1: Fs, fs': Fs, l: Location, mode: FileMode, hook: Option<IoError>,
                                r: Outcome<FileDescriptor>) {
    Adds(fs, fs1, l, RamFile([])) && HandsOut(fs1, fs', NodeAt(fs1.ns, l).value, mode, hook, r)
  }

  /** What there is to open: the node at the location, or a new empty file. */
  lemma FindReply(fs: Fs, l: Location, mode: FileMode)
    requires Named(fs, l)
    ensures var (fs1, v) := FindOrCreate(fs, PathTo(l), mode);
            if NodeAt(fs.ns, l).Some? then
              fs1 == fs && v == if DirectoryAt(fs.ns, l) && (mode == Write || mode == Append) then Err(NotAFile)
                                else Ok(NodeAt(fs.ns, l).value)
            else if Blocked(fs.ns, l) then fs1 == fs && v == Err(NotADirectory)
            else
              && l != []
              && if mode == Read || NodeAt(fs.ns, Parent(l)).None? then fs1 == fs && v == Err(EntryNotFound)
                 else if !RamDirectoryAt(fs, Parent(l)) then fs1 == fs && v == Err(OperationNotSupported)
                 else Adds(fs, fs1, l, RamFile([])) && v == Ok(NodeAt(fs1.ns, l).value)
  {
    hide NodeAt, WellFormed, TreeShaped, FilesOk, IdsFresh, Nameable, Resolve, ResolveParent, Blocked, PathTo, CreatorAt, Create;
    ResolveNames(fs.ns, l);
    NotTheRoot(fs, l);
    if NodeAt(fs.ns, l).None? && !Blocked(fs.ns, l) {
      ParentNames(fs.ns, l);
      CreatorsAreRamDirectories(fs, Parent(l));
      if mode != Read && RamDirectoryAt(fs, Parent(l)) {
        CreationAdds(fs, l, RamFile([]));
      }
    }
  }

  lemma OpenReply(fs: Fs, l: Location, mode: FileMode, hook: Option<IoError>)
    requires Named(fs, l)
    ensures var (fs', r) := Open(fs, PathTo(l), mode, hook);
            if NodeAt(fs.ns, l).Some? then
              if DirectoryAt(fs.ns, l) && (mode == Write || mode == Append) then fs' == fs && r == Err(NotAFile)
              else HandsOut(fs, fs', NodeAt(fs.ns, l).value, mode, hook, r)
            else if Blocked(fs.ns, l) then fs' == fs && r == Err(NotADirectory)
            else
              && l != []
              && if mode == Read || NodeAt(fs.ns, Parent(l)).None? then fs' == fs && r == Err(EntryNotFound)
                 else if !RamDirectoryAt(fs, Parent(l)) then fs' == fs && r == Err(OperationNotSupported)
                 else exists fs1 :: MakesAndOpens(fs, fs1, fs', l, mode, hook, r)
  {
    hide Invariant, NodeAt, DirectoryAt, RamDirectoryAt, Nameable, DotFree, Blocked, PathTo, FindOrCreate;
    FindReply(fs, l, mode);
    var (fs1, v) := FindOrCreate(fs, PathTo(l), mode);
    var (fs', r) := Open(fs, PathTo(l), mode, hook);
    if Adds(fs, fs1, l, RamFile([])) && v.Ok? && v == Ok(NodeAt(fs1.ns, l).value) {
      assert MakesAndOpens(fs, fs1, fs', l, mode, hook, r);
    }
  }

  // ---------------------------------------------------------------------
  // Mounting
  // ---------------------------------------------------------------------

  /** A file system without a kind is not implemented; an unknown kind is an error. */
  lemma UnknownKinds(fs: Fs, source: string, target: string, kind: string)
    requires kind != "ramfs" && kind != "devfs"
    ensures Mount(fs, source, target, Some(kind)) == (fs, Err(FileSystemTypeNotFound))
    ensures Mount(fs, source, target, None) == (fs, Panic)
  {
  }

  /** Neither kind takes a source: where a mount without one would succeed, one with
      a source panics, and elsewhere it makes no difference. */
  lemma MountSources(fs: Fs, source: string, target: string, kind: Option<string>)
    requires source != ""
    ensures Mount(fs, source, target, kind) ==
            if Mount(fs, "", target, kind).1.Ok? then (fs, Panic) else Mount(fs, "", target, kind)
  {
    hide Resolve, ResolveParent, AddMount;
  }

  /** A new file system at `l`. A ramfs is one empty directory in which nodes can be
      made; a devfs is a directory of exactly the registered devices, in which none
      can. Nothing moves outside of it, and no node or descriptor changes. */
  ghost predicate MountedAt(fs: Fs, fs': Fs, l: Location, kind: string) {
    && NodeAt(fs.ns, l).None? && DirectoryAt(fs'.ns, l)
    && (forall x :: !(l <= x) ==> NodeAt(fs'.ns, x) == NodeAt(fs.ns, x))
    && (kind == "ramfs" ==> RamDirectoryAt(fs', l) && forall x :: l < x ==> NodeAt(fs'.ns, x).None?)
    && (kind == "devfs" ==> !RamDirectoryAt(fs', l) && forall x :: l < x ==> FindsDevice(fs', l, x))
    && (forall r :: r in fs.ns.data ==> r in fs'.ns.data && fs'.ns.data[r] == fs.ns.data[r])
    && fs'.ns.devices == fs.ns.devices && fs'.files == fs.files && fs'.nextFd == fs.nextFd
    && fs'.nextMount == fs.nextMount + 1
    && [] in fs'.ns.mountAt
  }

  predicate FindsDevice(fs: Fs, l: Location, x: Location)
    requires l < x
  {
    var v := NodeAt(fs.ns, x);
    if Parent(x) == l && Last(x) in fs.ns.devices then v.Some? && v.value.DeviceNode? && v.value.name == Last(x)
    else v.None?
  }

  lemma AddMountMounts(fs: Fs, l: Location, name: string)
    requires Invariant(fs) && NodeAt(fs.ns, l).None? && (l != [] ==> DirectoryAt(fs.ns, Parent(l)))
    requires name == "ramfs" || name == "devfs"
    ensures FindFsKind(name).Some?
    ensures var fs' := AddMount(fs, l, FindFsKind(name).value); MountedAt(fs, fs', l, name) && Invariant(fs')
  {
    hide NodeAt, WellFormed, TreeShaped, FilesOk, IdsFresh, CanMount, Grows;
    var kind := FindFsKind(name).value;
    var fs' := AddMount(fs, l, kind);
    MountKeepsIds(fs, l, kind);
    MountKeepsInvariant(fs, l, kind);
    forall x
      ensures !(l <= x) ==> NodeAt(fs'.ns, x) == NodeAt(fs.ns, x)
      ensures NodeAt(fs'.ns, l) == Some(Stable(RootNode(fs.nextMount)))
      ensures l < x ==> NodeAt(fs'.ns, x) ==
                          if name == "devfs" && Parent(x) == l && Last(x) in fs.ns.devices
                          then Some(DeviceNode(fs.nextMount, Last(x))) else None
    {
      MountAddsExactlyItsTree(fs.ns, l, fs.nextMount, RootData(kind), x);
      MountAddsExactlyItsTree(fs.ns, l, fs.nextMount, RootData(kind), l);
    }
    MountsNeedRoot(fs', l);
  }

  lemma MountsNeedRoot(fs: Fs, l: Location)
    requires Invariant(fs) && l in fs.ns.mountAt
    ensures [] in fs.ns.mountAt
  {
  }

  /** Mounting by name, at the root and at a name below it. */
  lemma MountReply(fs: Fs, l: Location, kind: string)
    requires Invariant(fs) && Nameable(l) && DotFree(l) && (kind == "ramfs" || kind == "devfs")
    ensures var (fs', r) := Mount(fs, "", PathTo(l), Some(kind));
            if l == [] && [] in fs.ns.mountAt then fs' == fs && r == Err(AlreadyExists)
            else if l != [] && [] !in fs.ns.mountAt then fs' == fs && r == Err(NoRootDirectory)
            else if NodeAt(fs.ns, l).Some? then fs' == fs && r == Panic
            else if Blocked(fs.ns, l) then fs' == fs && r == Err(NotADirectory)
            else if l != [] && NodeAt(fs.ns, Parent(l)).None? then fs' == fs && r == Err(EntryNotFound)
            else r == Ok(fs.nextMount) && MountedAt(fs, fs', l, kind) && Invariant(fs')
  {
    hide Invariant, NodeAt, Nameable, DotFree, MountBelow, Blocked, Slashed, MountedAt, AddMount;
    if l == [] {
      NoRootNoNode(fs);
      if [] !in fs.ns.mountAt {
        AddMountMounts(fs, [], kind);
      }
    } else {
      PathIsNotRoot(l);
      MountBelowReply(fs, l, kind);
    }
  }

  lemma MountBelowReply(fs: Fs, l: Location, kind: string)
    requires Invariant(fs) && Nameable(l) && DotFree(l) && l != [] && (kind == "ramfs" || kind == "devfs")
    ensures FindFsKind(kind).Some?
    ensures var (fs', r) := MountBelow(fs, "", PathTo(l), FindFsKind(kind).value);
            if [] !in fs.ns.mountAt then fs' == fs && r == Err(NoRootDirectory)
            else if NodeAt(fs.ns, l).Some? then fs' == fs && r == Panic
            else if Blocked(fs.ns, l) then fs' == fs && r == Err(NotADirectory)
            else if NodeAt(fs.ns, Parent(l)).None? then fs' == fs && r == Err(EntryNotFound)
            else r == Ok(fs.nextMount) && MountedAt(fs, fs', l, kind) && Invariant(fs')
  {
    hide NodeAt, WellFormed, TreeShaped, IdsFresh, FilesOk, Nameable, DotFree, Resolve, ResolveParent, Blocked, PathTo, MountedAt,
         AddMount;
    if [] !in fs.ns.mountAt {
      NamesNeedRoot(fs.ns, l);
    } else {
      ResolveNames(fs.ns, l);
      ParentNames(fs.ns, l);
      assert Parent(l) + [Last(l)] == l;
      if NodeAt(fs.ns, l).None? && !Blocked(fs.ns, l) && NodeAt(fs.ns, Parent(l)).Some? {
        ParentIsNoObstacle(fs.ns, l);
        AddMountMounts(fs, l, kind);
      }
    }
  }

  lemma NoRootNoNode(fs: Fs)
    ensures NodeAt(fs.ns, []).Some? <==> [] in fs.ns.mountAt
    ensures !Blocked(fs.ns, [])
  {
  }

  lemma ParentIsNoObstacle(ns: Namespace, l: Location)
    requires l != [] && NodeAt(ns, Parent(l)).Some? && !Blocked(ns, l)
    ensures DirectoryAt(ns, Parent(l))
  {
    assert Parent(l) == l[..|l| - 1];
    assert !Obstacle(ns, l[..|l| - 1]);
  }

  /** Only the root's path is a single slash. */
  lemma PathIsNotRoot(l: Location)
    requires Nameable(l) && l != []
    ensures PathTo(l) != "/" && PathTo(l)[0] == '/'
  {
    if |l| == 1 {
      assert l[1..] == [] && l == [l[0]];
    } else {
      assert Slashed(l[1..])[0] == '/';
    }
  }

  lemma NamesNeedRoot(ns: Namespace, l: Location)
    requires Nameable(l) && l != [] && [] !in ns.mountAt
    ensures Resolve(ns, PathTo(l)) == Err(NoRootDirectory)
  {
    PathIsNotRoot(l);
    PathIsAscii(l);
    PathErrors(ns, PathTo(l));
  }

  /** Every mount that succeeds is of a known kind, without a source, at the location
      its target names, so that the laws above apply to it. */
  lemma MountsAreNamed(fs: Fs, source: string, target: string, kind: Option<string>) returns (l: Location)
    requires Invariant(fs) && Mount(fs, source, target, kind).1.Ok?
    ensures source == "" && (kind == Some("ramfs") || kind == Some("devfs"))
    ensures target == PathTo(l) && Nameable(l) && DotFree(l)
    ensures var (fs', r) := Mount(fs, source, target, kind);
            r == Ok(fs.nextMount) && MountedAt(fs, fs', l, kind.value) && Invariant(fs')
  {
    hide NodeAt, Nameable, Resolve, ResolveParent, Blocked, PathTo, MountedAt, AddMount, DotFree;
    if target == "/" {
      l := [];
      RootIsNameable();
      NoRootNoNode(fs);
      AddMountMounts(fs, [], kind.value);
    } else {
      var (dir, name) := ResolveParent(fs.ns, target).value;
      l := dir + [name];
      TargetIsNamed(fs.ns, target);
      AddMountMounts(fs, l, kind.value);
    }
  }

  lemma RootIsNameable()
    ensures Nameable([]) && DotFree([]) && PathTo([]) == "/"
  {
  }

  /** What can be done one step below a file system that was just mounted. */
  lemma BelowNewMount(fs: Fs, l: Location, kind: string, n: string)
    requires Invariant(fs) && Nameable(l) && DotFree(l) && (kind == "ramfs" || kind == "devfs")
    requires Mount(fs, "", PathTo(l), Some(kind)).1.Ok? && Nameable(l + [n]) && n != "." && n != ".."
    ensures var fs' := Mount(fs, "", PathTo(l), Some(kind)).0;
            && (kind == "ramfs" ==>
                  && Stat(fs', PathTo(l + [n])) == Err(EntryNotFound)
                  && CreateDirectory(fs', PathTo(l + [n])).1 == Ok(l + [n]))
            && (kind == "devfs" ==>
                  && Stat(fs', PathTo(l + [n])) == (if n in fs.ns.devices then Ok(l + [n]) else Err(EntryNotFound))
                  && CreateDirectory(fs', PathTo(l + [n])) ==
                     (fs', Err(if n in fs.ns.devices then AlreadyExists else OperationNotSupported)))
  {
    hide Invariant, NodeAt, Nameable, PathTo, Mount, CreateDirectory, Stat, RamDirectoryAt, Obstacle;
    MountReply(fs, l, kind);
    var fs' := Mount(fs, "", PathTo(l), Some(kind)).0;
    var x := l + [n];
    assert Parent(x) == l && Last(x) == n && l < x;
    assert DotFree(x);
    assert kind == "devfs" ==> FindsDevice(fs', l, x);
    NothingInTheWay(fs', l, n);
    StatReply(fs', x);
    MkdirReply(fs', x);
  }

  lemma NothingInTheWay(fs: Fs, l: Location, n: string)
    requires Invariant(fs) && DirectoryAt(fs.ns, l)
    ensures !Blocked(fs.ns, l + [n])
  {
    var x := l + [n];
    forall k | 0 <= k < |x| ensures !Obstacle(fs.ns, x[..k]) {
      if k < |l| {
        AncestorsAreDirectories(fs.ns, l, k);
        assert x[..k] == l[..k];
      } else {
        assert x[..k] == l;
      }
    }
  }

  // ---------------------------------------------------------------------
  // Reading and writing
  // ---------------------------------------------------------------------

  /** What a slice holds, byte by byte. */
  lemma SliceBytes(bytes: seq<byte>, offset: nat, size: nat)
    requires offset <= |bytes|
    ensures var s := Slice(bytes, offset, size);
            && |s| == (if size < |bytes| - offset then size else |bytes| - offset)
            && forall i :: 0 <= i < |s| ==> s[i] == bytes[offset + i]
  {
  }

  /** What a write leaves, byte by byte: the buffer where it was written, zeros in
      the hole before it if there is one, and elsewhere what was there. */
  predicate SplicedAt(was: seq<byte>, now: seq<byte>, offset: nat, buffer: seq<byte>) {
    var end := offset + |buffer|;
    && |now| == (if end > |was| then end else |was|)
    && forall i :: 0 <= i < |now| ==>
         now[i] == if offset <= i < end then buffer[i - offset] else if i < |was| then was[i] else 0
  }

  lemma SpliceBytes(bytes: seq<byte>, offset: nat, buffer: seq<byte>)
    ensures SplicedAt(bytes, Splice(bytes, offset, buffer), offset, buffer)
  {
  }

  /** The descriptor moves by this much and nothing else changes but node contents. */
  predicate Moves(fs: Fs, fs': Fs, fd: FileDescriptor, n: nat) {
    && fd in fs.files
    && fs' == fs.(ns := fs'.ns, files := fs.files[fd := fs.files[fd].(position := fs.files[fd].position + n)])
  }

  /** A read, for every descriptor: errors, panics, and the bytes delivered. */
  lemma ReadReply(fs: Fs, fd: FileDescriptor, size: nat)
    requires Invariant(fs)
    ensures var (fs', r) := ReadFile(fs, fd, size);
            if fd !in fs.files then fs' == fs && r == Err(InvalidFile)
            else if IsDirectory(fs.ns, fs.files[fd].view) then fs' == fs && r == Panic
            else if fs.files[fd].mode != Read then fs' == fs && r == Err(InvalidMode)
            else
              match fs.files[fd].view
              case DeviceNode(_, name) =>
                && name in fs.ns.devices
                && (match fs.ns.devices[name]
                    case NullDevice => fs' == fs && r == Err(OperationNotSupported)
                    case ZeroDevice =>
                      && r.Ok? && |r.value| == size && (forall i :: 0 <= i < size ==> r.value[i] == 0)
                      && fs'.ns == fs.ns && Moves(fs, fs', fd, size))
              case Stable(node) =>
                var offset := fs.files[fd].position;
                && node in fs.ns.data && fs.ns.data[node].RamFile? && offset <= |fs.ns.data[node].bytes|
                && var left := |fs.ns.data[node].bytes| - offset;
                  && r.Ok? && |r.value| == (if size < left then size else left)
                  && (forall i :: 0 <= i < |r.value| ==> r.value[i] == fs.ns.data[node].bytes[offset + i])
                  && fs'.ns == fs.ns && Moves(fs, fs', fd, |r.value|)
  {
    hide Invariant, Slice;
    if fd in fs.files {
      FileIsOk(fs, fd);
      var f := fs.files[fd];
      if f.view.Stable? && fs.ns.data[f.view.node].RamFile? {
        SliceBytes(fs.ns.data[f.view.node].bytes, f.position, size);
      }
    }
  }

  /** A write, for every descriptor. Offsets lie inside the file, so no hole arises. */
  lemma WriteReply(fs: Fs, fd: FileDescriptor, buffer: seq<byte>)
    requires Invariant(fs)
    ensures var (fs', r) := WriteFile(fs, fd, buffer);
            if fd !in fs.files then fs' == fs && r == Err(InvalidFile)
            else if IsDirectory(fs.ns, fs.files[fd].view) then fs' == fs && r == Panic
            else if fs.files[fd].mode != Write then fs' == fs && r == Err(InvalidMode)
            else
              match fs.files[fd].view
              case DeviceNode(_, name) =>
                && name in fs.ns.devices
                && (match fs.ns.devices[name]
                    case NullDevice => r == Ok(|buffer|) && fs'.ns == fs.ns && Moves(fs, fs', fd, |buffer|)
                    case ZeroDevice => fs' == fs && r == Err(OperationNotSupported))
              case Stable(node) =>
                && r == Ok(|buffer|) && Moves(fs, fs', fd, |buffer|)
                && node in fs.ns.data && fs.ns.data[node].RamFile?
                && node in fs'.ns.data && fs'.ns.data[node].RamFile?
                && fs'.ns == fs.ns.(data := fs.ns.data[node := fs'.ns.data[node]])
                && WrittenAt(fs.ns.data[node].bytes, fs'.ns.data[node].bytes, fs.files[fd].position, buffer)
  {
    hide Invariant, Splice;
    if fd in fs.files {
      FileIsOk(fs, fd);
      var f := fs.files[fd];
      if f.view.Stable? && fs.ns.data[f.view.node].RamFile? {
        SpliceBytes(fs.ns.data[f.view.node].bytes, f.position, buffer);
      }
    }
  }

  /** The buffer replaces what was at an offset inside the file, or lengthens it. */
  predicate WrittenAt(was: seq<byte>, now: seq<byte>, offset: nat, buffer: seq<byte>) {
    offset <= |was| && SplicedAt(was, now, offset, buffer)
  }

  /** Closing: an unknown descriptor and a failing flush change nothing; otherwise
      the descriptor, and only it, is gone. */
  lemma CloseReply(fs: Fs, fd: FileDescriptor, flush: Option<IoError>)
    ensures var (fs', r) := Close(fs, fd, flush);
            if fd !in fs.files then fs' == fs && r == Err(InvalidFile)
            else if flush.Some? then fs' == fs && r == Err(flush.value)
            else
              && r == Ok(()) && fd !in fs'.files
              && fs'.files.Keys == fs.files.Keys - {fd} && (forall x :: x in fs'.files ==> fs'.files[x] == fs.files[x])
              && fs' == fs.(files := fs'.files)
  {
  }

  // ---------------------------------------------------------------------
  // Paths that fail, and paths that differ only in dots
  // ---------------------------------------------------------------------

  /** A path whose resolution fails makes every call fail the same way, changing nothing. */
  lemma FailsLikeResolution(fs: Fs, path: string, mode: FileMode, hook: Option<IoError>)
    requires !Resolve(fs.ns, path).Ok?
    ensures Stat(fs, path) == Resolve(fs.ns, path).PropagateFailure()
    ensures ReadDirectory(fs, path) == Resolve(fs.ns, path).PropagateFailure()
    ensures CreateDirectory(fs, path) == (fs, Resolve(fs.ns, path).PropagateFailure())
    ensures Open(fs, path, mode, hook) == (fs, Resolve(fs.ns, path).PropagateFailure())
    ensures path != "/" ==> forall kind :: kind == "ramfs" || kind == "devfs" ==>
              Mount(fs, "", path, Some(kind)) == (fs, Resolve(fs.ns, path).PropagateFailure())
  {
    hide Resolve;
  }

  /** A path that resolves can be replaced by the path of where it leads. */
  lemma DotsMakeNoDifference(fs: Fs, l: Location, mode: FileMode, hook: Option<IoError>)
    requires Invariant(fs) && [] in fs.ns.mountAt && Nameable(l)
    requires Resolve(fs.ns, PathTo(l)).Ok? && Resolve(fs.ns, PathTo(l)).value.Some? && Nameable(Normalise([], l))
    ensures var a, b := PathTo(l), PathTo(Normalise([], l));
            && Stat(fs, a) == Stat(fs, b)
            && ReadDirectory(fs, a) == ReadDirectory(fs, b)
            && CreateDirectory(fs, a) == CreateDirectory(fs, b)
            && Open(fs, a, mode, hook) == Open(fs, b, mode, hook)
  {
    hide WellFormed, TreeShaped, IdsFresh, FilesOk, NodeAt, Resolve, Nameable, PathTo, Normalise, DotFree;
    ResolvesToNormalForm(fs.ns, l);
    ResolveNames(fs.ns, Normalise([], l));
  }

  lemma ResolvesToNormalForm(ns: Namespace, l: Location)
    requires WellFormed(ns) && [] in ns.mountAt && Nameable(l)
    requires Resolve(ns, PathTo(l)).Ok? && Resolve(ns, PathTo(l)).value.Some?
    ensures var n := Normalise([], l);
            Resolve(ns, PathTo(l)) == Ok(Some(n)) && NodeAt(ns, n).Some? && DotFree(n)
  {
    hide WellFormed, Nameable, Segments, Walk, PathTo, Normalise;
    SegmentsOfPath(ns, l);
    WalkFoundInvariant(ns, [], l);
  }

  // ---------------------------------------------------------------------
  // Numbering
  // ---------------------------------------------------------------------

  predicate Numbered(fs: Fs, m: MountId, i: nat) {
    m in fs.nextNode && (NodeRef(m, i) in fs.ns.data <==> i < fs.nextNode[m])
  }

  /** Mounts are numbered from 0, and the nodes of each ramfs from 0, its root. */
  ghost predicate NumberedWithoutGaps(fs: Fs) {
    && (forall m: MountId :: m < fs.nextMount <==> RootNode(m) in fs.ns.data)
    && (forall m, i: nat {:trigger Numbered(fs, m, i)} :: m in fs.nextNode ==> Numbered(fs, m, i))
  }

  lemma CreateNumbers(fs: Fs, d: NodeRef, name: string, data: NodeData)
    requires Invariant(fs) && NumberedWithoutGaps(fs) && Creator(fs, d)
    ensures NumberedWithoutGaps(Create(fs, d, name, data))
  {
    hide WellFormed, TreeShaped, FilesOk;
    var fs' := Create(fs, d, name, data);
    assert fs'.ns.data.Keys == fs.ns.data.Keys + {NewNode(fs, d)};
    forall m, i: nat | m in fs'.nextNode ensures Numbered(fs', m, i) {
      assert Numbered(fs, m, i);
    }
  }

  lemma MountNumbers(fs: Fs, at: Location, kind: FsKind)
    requires Invariant(fs) && NumberedWithoutGaps(fs)
    ensures NumberedWithoutGaps(AddMount(fs, at, kind))
  {
    hide WellFormed, TreeShaped, FilesOk;
    var fs' := AddMount(fs, at, kind);
    assert fs'.ns.data.Keys == fs.ns.data.Keys + {RootNode(fs.nextMount)};
    forall m, i: nat | m in fs'.nextNode ensures Numbered(fs', m, i) {
      if m in fs.nextNode {
        assert Numbered(fs, m, i);
      }
    }
  }

  lemma SameNumbers(fs: Fs, fs': Fs)
    requires NumberedWithoutGaps(fs)
    requires fs'.ns.data.Keys == fs.ns.data.Keys && fs'.nextNode == fs.nextNode && fs'.nextMount == fs.nextMount
    ensures NumberedWithoutGaps(fs')
  {
    assert forall r :: r in fs'.ns.data <==> r in fs.ns.data;
    forall m, i: nat | m in fs'.nextNode ensures Numbered(fs', m, i) {
      assert Numbered(fs, m, i);
    }
  }

  lemma StepNumbers(fs: Fs, op: Op)
    requires Invariant(fs) && NumberedWithoutGaps(fs)
    ensures NumberedWithoutGaps(Step(fs, op).0)
  {
    hide Invariant, NumberedWithoutGaps, Resolve, ResolveParent, CreatorAt, Create, AddMount, NodeAt, IsDirectory, Splice, Slice,
         Zeros;
    var fs' := Step(fs, op).0;
    match op
    case MountOp(_, target, kind) =>
      var k := if kind.Some? then FindFsKind(kind.value) else None;
      if k.Some? {
        MountNumbers(fs, [], k.value);
        var p := ResolveParent(fs.ns, target);
        if p.Ok? {
          MountNumbers(fs, p.value.0 + [p.value.1], k.value);
        }
      }
    case OpenOp(path, mode, _) =>
      var fs1 := FindOrCreate(fs, path, mode).0;
      var p := ResolveParent(fs.ns, path);
      if p.Ok? && CreatorAt(fs, p.value.0).Some? {
        CreatorsAreRamDirectories(fs, p.value.0);
        CreateNumbers(fs, CreatorAt(fs, p.value.0).value, p.value.1, RamFile([]));
      }
      SameNumbers(fs1, fs');
    case MkdirOp(path) =>
      var p := ResolveParent(fs.ns, path);
      if p.Ok? && CreatorAt(fs, p.value.0).Some? {
        CreatorsAreRamDirectories(fs, p.value.0);
        CreateNumbers(fs, CreatorAt(fs, p.value.0).value, p.value.1, RamDirectory(map[]));
      }
    case _ => SameNumbers(fs, fs');
  }

  /** In every run from boot, mount ids and the node ids of each ramfs are given out
      from 0 without gaps. */
  lemma {:induction false} RunNumbers(fs: Fs, ops: seq<Op>)
    requires Invariant(fs) && NumberedWithoutGaps(fs)
    ensures NumberedWithoutGaps(Run(fs, ops).0)
    decreases |ops|
  {
    hide Invariant, NumberedWithoutGaps, Step;
    if ops != [] {
      StepKeeps(fs, ops[0]);
      StepNumbers(fs, ops[0]);
      if !IsPanic(Step(fs, ops[0]).1) {
        RunNumbers(Step(fs, ops[0]).0, ops[1..]);
      }
    }
  }

  // ---------------------------------------------------------------------
  // Boot
  // ---------------------------------------------------------------------

  /** At boot nothing is mounted: no path resolves, and descriptors start at one. */
  lemma BootState(devices: map<string, DeviceKind>, path: string)
    ensures Invariant(Initial(devices)) && Initial(devices).nextFd == 1 && Initial(devices).nextMount == 0
    ensures NumberedWithoutGaps(Initial(devices))
    ensures !Resolve(Initial(devices).ns, path).Ok?
    ensures forall l :: NodeAt(Initial(devices).ns, l).None?
  {
    forall l ensures NodeAt(Initial(devices).ns, l).None? {
      NothingAtBoot(devices, l);
    }
  }

  lemma {:induction false} NothingAtBoot(devices: map<string, DeviceKind>, l: Location)
    ensures NodeAt(Initial(devices).ns, l).None?
    decreases |l|
  {
    if l != [] {
      NothingAtBoot(devices, Parent(l));
    }
  }
}
