# RiptideOS kernel: a verified model

This project models the stateful core of the RiptideOS kernel in Dafny and proves
what the kernel's comments and structure promise about it.

## What is modelled

**The virtual file system** (`kernel/src/fs`, `kernel/src/drivers/fs`). The kernel
resolves paths with a stack of directory entries. It asks the mount table, then a
cache of weakly referenced entries, then the file system driver. Entries hold their
parents strongly and their children weakly, die with their last strong reference and
come back with a new id. The proof has three layers:

- `Namespace` and `FsSpec` are the simple thing: what is mounted where, what the
  drivers store, and what every call returns, without entries, ids or a cache.
  `PathLaws` and `CallLaws` say what each path string means and what each call answers,
  case by case, in terms of the nodes at the location it names; `FsInvariants`, `FsRuns`
  and `FileRoundTrip` prove what clients may rely on over whole runs.
- `CacheSpec` and `VfsState` say when a cache is coherent and when the kernel's state
  represents a state of the specification, and that each elementary change (caching an
  answer, dropping a handle with its cascade, pruning, creating, mounting, opening,
  closing, writing) keeps this.
- `DirectoryCache` and `Vfs` are the kernel's code as classes whose fields change in
  place; `VfsRefinement` holds the steps of their proofs. Every call is proved to have
  the outcome and effect of the specification. `Vfs.RunFromBoot` is the result: over
  every run, with entries dropped and the cache pruned at any point, the cached file
  system cannot be told from the cacheless one. Entries returned to clients are compared
  by location, listings up to the node ids that devfs makes up.

**The wake-up protocol** (`kernel/src/task`, `kernel/src/shell/keyboard.rs`).
`Wakeups` is a state machine over the single core's shared-memory accesses, in which a
keyboard or timer interrupt may come between any two of them while interrupts are
enabled. `Executor` is the code with its loops and early returns; every behaviour of it
is a run of the state machine.

**Smaller parts**: the path parser (`PathParser`), the shell's tokenizer (`Tokenizer`),
the VGA text writer (`Screen`) and the boot-time frame allocator (`Frames`).

## How to read it

- `Outcome` is `Ok`, `Err` or `Panic`. Reachable `todo!()`s and assertions of the kernel
  (relative and non-ASCII paths, dots in the parent walk, mounting over an existing
  entry or without a kind, a file system source that is not empty, reading or writing
  through a descriptor on a directory) are `Panic` outcomes. Panics that cannot happen
  (re-inserting an entry, `file_system` on an unknown mount, `data_as` on the wrong
  data, link count underflow) are preconditions, discharged at every call.
- A strong reference is a count in the entry; `handles` is the ghost multiset of all
  references held from outside the cache. `clients` stands for the holders of entries
  outside the kernel. Dropping a reference runs the cascade that freeing would run.
- Errors of the drivers' open and flush hooks are arguments of `open` and `close`, so
  every pattern of failures is covered. The device registry is fixed at boot.
- VFS calls do not yield and interrupt handlers do not touch the VFS, so a call is one
  step of a run.

## Where code and comments differ

- The cache is described as evicting unused entries at any time on an LRU basis
  (`kernel/src/fs/vfs.rs:618-622`). An entry dies exactly when its last strong reference
  goes; pruning only forgets dead weak references (`CacheSpec.LivesExactlyWhileHeld`,
  `CacheSpec.PruneChangesNoLookup`).
- `mount` carries a note that it does not check whether the name is taken
  (`kernel/src/fs/vfs.rs:319-322`). On a single core the check is not needed: the failed
  resolution before it implies that the name is free (`Namespace.CreationNeverClobbers`).
- The executor expects that waking a task never finds the task queue full
  (`kernel/src/task/executor.rs:90-93`). It can (`Wakeups.TaskQueueCanOverflow`);
  `Wakeups.PanicsExactly` says exactly when.
- Parsing is not inverse to printing on all segment lists: `["", "a"]` is spelled `/a`,
  which has a root. `PathParser.PrintParseRoundTrip` gives the exact condition.

## Model

| member | source | states |
|---|---|---|
| `Vfs.RunFromBoot` | kernel/src/fs/vfs.rs:69-528 | Main theorem. For every list of client calls from boot (mounts, opens, closes, reads, writes, listings, mkdirs, stats, drops of held entries, prunes), the replies of the cached implementation are those of the cacheless specification run on the same list; a panic, where the kernel has one, is the last reply of both. |
| `Vfs.VirtualFileSystem.Run` | kernel/src/fs/vfs.rs:69-528 | The same from any valid state, together with the specification state reached; after a run without panic all invariants hold again: coherence, link counts, dispatch safety. |
| `Vfs.VirtualFileSystem.Step` | kernel/src/fs/vfs.rs:259-528 | One client call: the reply and the specification state after it are those of the specification step, and the invariants hold again unless the kernel panicked. |
| `Vfs.VirtualFileSystem.GetCachedOrLookup` | kernel/src/fs/vfs.rs:85-108 | Finds something exactly if the cacheless namespace has a node at the parent's location plus the name, mount roots included although the mount table is not read; the entry returned stands for that location, and exactly one new handle on it is held. |
| `Vfs.VirtualFileSystem.LookupInDriver` | kernel/src/drivers/fs/dev.rs:130-157 | A driver lookup returns the child the namespace has, or none: ramfs its stored child, devfs a new node for a registered device. |
| `Vfs.VirtualFileSystem.FindMount` | kernel/src/fs/vfs.rs:164-174 | Comparing the ids of mount roots' parents with the top of the stack finds a mount exactly if one is mounted at the top's location plus the name. |
| `Vfs.VirtualFileSystem.FollowSegment` | kernel/src/fs/vfs.rs:137-183 | One segment moves the resolution stack exactly where the cacheless walk moves; the stack always holds one entry per prefix of the location; when the walk ends, every handle taken is let go of. |
| `Vfs.VirtualFileSystem.ResolvePath` | kernel/src/fs/vfs.rs:122-186 | Cache transparency: the same error, the same "nothing", or an entry for the same location as the cacheless walk; one more handle is held if an entry is returned and none otherwise. |
| `Vfs.VirtualFileSystem.FollowDirectory` | kernel/src/fs/vfs.rs:224-241 | One step of the parent walk fares as the namespace says: missing, not a directory, or on. |
| `Vfs.VirtualFileSystem.ResolvePathParentDirectory` | kernel/src/fs/vfs.rs:191-250 | Without reading the mount table, the parent walk returns the error, the panic, or the parent location and name of the cacheless parent walk. |
| `Vfs.VirtualFileSystem.CreateInDriver` | kernel/src/drivers/fs/ram.rs:154-208 | Creation in a ramfs directory adds exactly the specified child with the next node id; a devfs directory refuses and nothing changes. |
| `Vfs.VirtualFileSystem.CreateEntry` | kernel/src/fs/vfs.rs:366-373 | The new node gets an entry for its location and one handle on it; the assertion against re-insertion is discharged. |
| `Vfs.VirtualFileSystem.OpenEntry` | kernel/src/fs/vfs.rs:379-392 | Opening a node: a descriptor with the next number at offset 0 on that node; when the driver's open hook fails, the deferred decrement restores the link count and nothing else changes. |
| `Vfs.VirtualFileSystem.Open` | kernel/src/fs/vfs.rs:353-392 | Descriptor, error and state are those of the specification: existing files, directories refused for writing modes, files created on demand. |
| `Vfs.VirtualFileSystem.Close` | kernel/src/fs/vfs.rs:395-405 | Closing removes the descriptor; an unknown descriptor, or a failing flush, is an error without effect. |
| `Vfs.VirtualFileSystem.Read` | kernel/src/fs/vfs.rs:409-430 | Fills the front of the caller's buffer with the specified slice, leaves the rest of the buffer alone, returns the number of bytes and advances the offset by it; bad descriptor, wrong mode and unreadable device are errors without effect, a directory panics. |
| `Vfs.VirtualFileSystem.RamRead` | kernel/src/drivers/fs/ram.rs:108-125 | The driver copies the slice of the file at the offset, cut at the end of the file, into the buffer in place. |
| `Vfs.VirtualFileSystem.Write` | kernel/src/fs/vfs.rs:434-457 | The file becomes the specified splice and the offset advances by the buffer's length; errors have no effect. |
| `Vfs.VirtualFileSystem.RamWrite` | kernel/src/drivers/fs/ram.rs:127-142 | The driver grows the byte vector with zeros where needed and overwrites at the offset; no other node changes. |
| `Vfs.VirtualFileSystem.ReadDirectory` | kernel/src/fs/vfs.rs:462-492 | The listing is the specification's: the same names with the same kinds, and the same node ids wherever ids are stable. |
| `Vfs.VirtualFileSystem.ListMounts` | kernel/src/fs/vfs.rs:480-489 | The loop over the mount table adds exactly the names mounted in the directory. |
| `Vfs.VirtualFileSystem.ListRam` | kernel/src/drivers/fs/ram.rs:248-260 | The ramfs listing is what its lookup finds, name by name. |
| `Vfs.VirtualFileSystem.ListDevices` | kernel/src/drivers/fs/dev.rs:159-179 | The devfs listing is what its lookup finds, up to the node ids it makes up. |
| `Vfs.VirtualFileSystem.CreateDirectory` | kernel/src/fs/vfs.rs:494-516 | The specified state and outcome; on success the client holds an entry for the new location. |
| `Vfs.VirtualFileSystem.Stat` | kernel/src/fs/vfs.rs:518-520 | The entry for the location the specification names; if the client already holds an entry for that place, it is the same id. |
| `Vfs.VirtualFileSystem.Mount` | kernel/src/fs/vfs.rs:259-341 | The mount id, error, panic and state of the specification for a root mount and for a mount on a name that does not exist. |
| `Vfs.VirtualFileSystem.AddMount` | kernel/src/fs/vfs.rs:302-341 | A new file system instance at a free location: its root gets an entry which the mount table holds from then on. |
| `Vfs.VirtualFileSystem.DropHandle` | kernel/src/fs/vfs.rs:556-600 | A client lets go of an entry: surviving entries keep their identity, and what survives is exactly what a remaining handle is on or below. |
| `Vfs.VirtualFileSystem.PruneDirectoryCache` | kernel/src/fs/vfs.rs:525-528 | The cache afterwards is the pruned cache; the state still represents the same specification state. |
| `VfsState.OneEntryPerLocation` | kernel/src/fs/vfs.rs:556-591 | Two live entries for the same location are the same entry, so equality of ids is equality of places. |
| `VfsState.MountRootIsChild` | kernel/src/fs/vfs.rs:531-543 | The root of a mount below an entry is live and is what the cache finds under that entry and name, so walks that never read the mount table cross mounts. |
| `VfsState.RootsAreHeld` | kernel/src/fs/vfs.rs:535-538 | Every mount root is held, and every held entry is live. |
| `VfsState.EntryNode` | kernel/src/fs/mod.rs:257-275 | A live entry's node has its mount in the mount table and data matching its kind and driver, and is a directory exactly if the namespace has one there. |
| `VfsState.DispatchIsSafe` | kernel/src/fs/mod.rs:257-271 | In every represented state the nodes reachable from the cache, the mount table and the descriptor table have a mounted file system and the private data its driver casts to. |
| `VfsState.ChildLocation` | kernel/src/fs/vfs.rs:653-661 | What a parent and a name upgrade to lies at the parent's location plus the name; if nothing, no mount is there and insertion is allowed. |
| `VfsState.EntryInserted` | kernel/src/fs/vfs.rs:99-105 | Caching a driver's answer represents the same specification state. |
| `VfsState.EntryDropped` | kernel/src/fs/vfs.rs:576-581 | Dropping a handle that is not a mount's represents the same specification state. |
| `VfsState.CachePruned` | kernel/src/fs/vfs.rs:698-706 | Pruning represents the same specification state. |
| `VfsState.DeviceNumbered` | kernel/src/drivers/fs/dev.rs:130-157 | A devfs lookup, which makes a node with a new id, represents the same specification state: device nodes are known by name only. |
| `VfsState.NodeCreated` | kernel/src/drivers/fs/ram.rs:154-208 | Creating a ramfs node represents the specification's creation. |
| `VfsState.FileSystemMounted` | kernel/src/fs/vfs.rs:302-341 | Mounting represents the specification's mount. |
| `VfsState.FileOpened` | kernel/src/fs/mod.rs:277-280 | Opening keeps every node's link count at one plus its open descriptors. |
| `VfsState.FileClosed` | kernel/src/fs/mod.rs:282-287 | Closing keeps every node's link count at one plus its open descriptors, and the decrement cannot underflow: the count is at least two. |
| `VfsState.FileWritten` | kernel/src/drivers/fs/ram.rs:127-142 | Writing a ramfs file represents the specification's write. |
| `VfsRefinement.RootEntry` | kernel/src/fs/vfs.rs:634-637 | The cache knows a root entry exactly when a file system is mounted at the root. |
| `VfsRefinement.FreeTarget` | kernel/src/fs/vfs.rs:302-326 | After a failed resolution and a successful parent walk, the target name is free in the driver, the mount table and the cache. |
| `VfsRefinement.MountedNames` | kernel/src/fs/vfs.rs:480-489 | A name is mounted in a directory exactly if some mount root is a child of the directory's entry under that name. |
| `VfsRefinement.ListingIsShown` | kernel/src/fs/vfs.rs:462-492 | Driver names plus mount names make up the specified listing. |
| `CacheSpec.OneEntryPerName` | kernel/src/fs/vfs.rs:556-559 | No two live entries share a parent and a name. |
| `CacheSpec.SlotsAndEntries` | kernel/src/fs/vfs.rs:618-637 | A slot leads to nothing or to the live entry with its key, and every live entry is what its key upgrades to. |
| `CacheSpec.ChildrenAgreeWithTable` | kernel/src/fs/vfs.rs:576-581 | An entry's weak children and the table agree on what is live under each name. |
| `CacheSpec.LivesExactlyWhileHeld` | kernel/src/fs/vfs.rs:561-581 | Liveness is reachability: an entry is live if and only if some handle is on it or on something below it. |
| `CacheSpec.CloneKeeps` | kernel/src/fs/vfs.rs:691-695 | Upgrading a weak reference keeps coherence: shape and reference counts. |
| `CacheSpec.InsertKeeps` | kernel/src/fs/vfs.rs:640-688 | Inserting where insertion is allowed keeps coherence and makes an entry with a new id and one handle. |
| `CacheSpec.Drop` | kernel/src/fs/vfs.rs:561-581 | Dropping a handle, with the cascade up the parent chain, keeps coherence, the table and the identity of survivors, and takes exactly one handle away. |
| `CacheSpec.Release` | kernel/src/fs/vfs.rs:561-581 | Letting one counted reference go keeps coherence; the cascade follows strictly smaller ids. |
| `CacheSpec.PruneKeeps` | kernel/src/fs/vfs.rs:698-706 | Pruning keeps coherence. |
| `CacheSpec.PrunedTableIsLive` | kernel/src/fs/vfs.rs:698-699 | The pruned table leads to every live entry and to nothing else, so the loop over it prunes every live entry's children. |
| `CacheSpec.PruneChangesNoLookup` | kernel/src/fs/vfs.rs:593-600 | Pruning changes no lookup in the table or in any entry's children, and leaves only live weak references. |
| `DirectoryCache.DirectoryCache.Lookup` | kernel/src/fs/vfs.rs:692-695 | Returns the live entry under the key, with a new handle on it, or nothing and no change. |
| `DirectoryCache.DirectoryCache.Insert` | kernel/src/fs/vfs.rs:640-688 | The cache afterwards is the specified insertion, in table, parent's children, counts and ids. |
| `DirectoryCache.DirectoryCache.Drop` | kernel/src/fs/vfs.rs:561-581 | The loop that frees entries up the parent chain ends in the specified cache, for every coherent cache and handle. |
| `DirectoryCache.DirectoryCache.Prune` | kernel/src/fs/vfs.rs:698-706 | The retain and the loop over the surviving entries end in the specified cache. |
| `Namespace.DotsAreLexical` | kernel/src/fs/vfs.rs:146-159 | A path that resolves at all resolves to its lexical normal form, ".." at the root being ignored, and the normal form resolves to the same place. |
| `Namespace.WalkIsNodeAt` | kernel/src/fs/vfs.rs:137-185 | On dot-free paths the walk finds exactly the locations that hold a node. |
| `Namespace.AncestorsAreDirectories` | kernel/src/fs/vfs.rs:140-144 | Everything above a location that holds a node is a directory. |
| `Namespace.ParentWalkIsWalk` | kernel/src/fs/vfs.rs:191-250 | The parent walk succeeds if and only if the path is dot-free and the ordinary walk of all segments but the last ends in a directory; then it returns that directory and the last segment. |
| `Namespace.CreationNeverClobbers` | kernel/src/fs/vfs.rs:302-313 | If a path does not resolve but its parent walk succeeds, exactly the last segment is missing: no mount and no driver child has its name. |
| `Namespace.GrowthKeepsNodes` | kernel/src/fs/vfs.rs:353-374 | While the tree only grows, every node stays where it is and directories stay directories. |
| `Namespace.OnePlacePerNode` | kernel/src/drivers/fs/ram.rs:71-76 | No node is in two places. |
| `Namespace.AddChildAddsExactlyOne` | kernel/src/drivers/fs/ram.rs:154-179 | Creating a node makes it appear at its location and changes what is at no other location. |
| `Namespace.MountAddsExactlyItsTree` | kernel/src/fs/vfs.rs:302-341 | Mounting makes the root appear at its location, a devfs's devices directly below it, and nothing else; what is outside that subtree stays. |
| `Namespace.AddChildKeepsTree` | kernel/src/drivers/fs/ram.rs:181-208 | Creation keeps the namespace well formed and a tree. |
| `Namespace.MountKeepsTree` | kernel/src/fs/vfs.rs:313-341 | Mounting keeps the namespace well formed and a tree; no mount hides a driver child. |
| `FsInvariants.CreationTarget` | kernel/src/fs/vfs.rs:358-367 | For path strings: a failed resolution and a successful parent walk give a directory in which the name is free. |
| `FsInvariants.StepKeeps` | kernel/src/fs/vfs.rs:259-528 | Every call keeps the invariant: tree shape, mounts that hide nothing, unused ids, descriptors on existing nodes, ramfs offsets inside the file. |
| `FsInvariants.RunKeeps` | kernel/src/fs/vfs.rs:259-528 | So does every run. |
| `FsInvariants.ListingAgreesWithLookup` | kernel/src/fs/vfs.rs:462-492 | A directory lists exactly the names that resolve one step from it, each as the node found there. |
| `FsRuns.ClosedForGood` | kernel/src/fs/vfs.rs:395-405 | A descriptor that was handed out and closed is never open again in any later run; every use of it fails with InvalidFile and changes nothing. |
| `FsRuns.DescriptorsNeverReused` | kernel/src/fs/mod.rs:358-366 | The descriptors handed out in a run are strictly increasing. |
| `FsRuns.DescriptorsStayPut` | kernel/src/fs/vfs.rs:387-392 | While a descriptor stays open, whatever else is called, it stays on the node and in the mode it was opened with. |
| `FsRuns.EveryRunReplays` | kernel/src/fs/vfs.rs:409-457 | In every run of any calls (reads and writes through any descriptors between opens, closes, mkdirs, mounts, drops and prunes), each ramfs file, old or created on the way, holds its first contents with each successful write laid over at its descriptor's running offset; each open descriptor is at its running offset, which lies inside its file, so reads never start past the end and holes never arise. |
| `FsRuns.EveryReadSeesReplay` | kernel/src/drivers/fs/ram.rs:108-125 | In every run, a read on a ramfs file delivers the slice, at its descriptor's running offset, of the contents replayed up to that read. |
| `FsRuns.IoPanicsExactly` | kernel/src/fs/vfs.rs:409-436 | A read or write panics if and only if its descriptor is open on a directory. |
| `FsRuns.IoRunsDoNotPanic` | kernel/src/fs/vfs.rs:409-457 | A run of reads and writes, none through a descriptor on a directory, does not panic. |
| `FsRuns.SpliceInside` | kernel/src/drivers/fs/ram.rs:127-142 | With the offset inside the file, the resize-and-copy of the driver is an overwrite without zero filling. |
| `FileRoundTrip.CreatableIsNamed` | kernel/src/fs/vfs.rs:365-374 | A path is creatable if and only if it spells, without dots, a location that holds nothing in a ramfs directory; the file is made at the location the path spells. |
| `FileRoundTrip.OpenCreates` | kernel/src/fs/vfs.rs:353-392 | Opening a creatable path for writing makes an empty file at its place. |
| `FileRoundTrip.WriteThenReadBack` | kernel/src/drivers/fs/ram.rs:108-142 | End to end, for every creatable path: create, write any chunks, close, reopen, read in any sizes; the bytes delivered are the prefix of the bytes written that the sizes allow, all of them if the sizes suffice, and nothing panics. |
| `PathLaws.SegmentsOfPath` | kernel/src/fs/vfs.rs:122-137 | The path of a location, a slash before every name, is read as exactly that location: only the root segment is skipped. |
| `PathLaws.PathOfSegments` | kernel/src/fs/vfs.rs:122-137 | Conversely, every accepted path is the path of the location it is read as. |
| `PathLaws.PathErrors` | kernel/src/fs/vfs.rs:122-131 | Which strings panic (not ASCII, or relative), are invalid (empty, or longer than 4096) or find no root, for every string and both walks. |
| `PathLaws.ResolveNames` | kernel/src/fs/vfs.rs:122-186 | A path without dots resolves to the location it spells if and only if a node is there; it is "not a directory" if and only if something above that is no directory, and otherwise nothing. |
| `PathLaws.ResolveDots` | kernel/src/fs/vfs.rs:137-185 | The same for paths with dots: the normal form is found if everything passed on the way is a directory and a node is there; the walk is refused at the first thing passed that is no directory, also before "." and "..". |
| `PathLaws.ParentNames` | kernel/src/fs/vfs.rs:191-250 | The parent walk of a path without dots: refused at something that is no directory, missing without a parent, or else the parent and the last name. |
| `PathLaws.ParentDots` | kernel/src/fs/vfs.rs:217-223 | Creating through a path panics if and only if the parent walk reaches a "." or "..". |
| `PathLaws.TargetIsNamed` | kernel/src/fs/vfs.rs:302-315 | A path that does not resolve but whose parent does is the path of the place it creates. |
| `Namespace.WalkIsBlocked` | kernel/src/fs/vfs.rs:140-144 | A dot-free walk answers "not a directory" exactly if some proper prefix of the path holds a node that is no directory. |
| `Namespace.WalkWithDots` | kernel/src/fs/vfs.rs:137-185 | What becomes of every walk, dots included, in terms of the places it passes. |
| `CallLaws.StatReply` | kernel/src/fs/vfs.rs:518-520 | The location the path names, if a node is there; "not a directory" or "not found" otherwise. |
| `CallLaws.ListReply` | kernel/src/fs/vfs.rs:462-492 | The reply lists exactly the names that hold a node one step below, each with the kind of that node and, but for devices, its id; anything but a directory is an error. |
| `CallLaws.MkdirReply` | kernel/src/fs/vfs.rs:494-516 | All cases by what is at the location and above it; success adds one empty directory there and changes what is at no other place, in no file and in no descriptor. |
| `CallLaws.OpenReply` | kernel/src/fs/vfs.rs:353-392 | All cases by mode, by what is at the location and above it, and by the driver's hook: the next descriptor at offset 0 on the node there, or on a new empty file, which is all that changes. |
| `CallLaws.MountReply` | kernel/src/fs/vfs.rs:259-341 | All cases by name of the kind: a "ramfs" leaves an empty directory in which nodes can be made, a "devfs" a directory of exactly the registered devices; outside the new subtree nothing moves. |
| `CallLaws.UnknownKinds` | kernel/src/fs/vfs.rs:269-277 | Any other kind is an unknown file system type and changes nothing; no kind panics. |
| `CallLaws.MountSources` | kernel/src/drivers/fs/ram.rs:31 | A mount with a source panics exactly where one without would succeed. |
| `CallLaws.MountsAreNamed` | kernel/src/fs/vfs.rs:259-341 | Every mount that succeeds has a known kind, no source and a target without dots, and mounts at the location the target spells. |
| `CallLaws.BelowNewMount` | kernel/src/drivers/fs/dev.rs:130-157 | Right after mounting: below a new ramfs every name is free and can be created; below a new devfs exactly the devices are found and creating another name is not supported. |
| `CallLaws.ReadReply` | kernel/src/fs/vfs.rs:409-430 | All cases, byte by byte: a ramfs file delivers its bytes from the offset on, cut at its end; the zero device delivers the requested number of zeros; the null device refuses; the offset moves by what was delivered. |
| `CallLaws.WriteReply` | kernel/src/fs/vfs.rs:434-457 | All cases, byte by byte: the buffer replaces what was at the offset or lengthens the file; the null device swallows it; the zero device refuses. |
| `CallLaws.SpliceBytes` | kernel/src/drivers/fs/ram.rs:127-142 | The driver's write at any offset, byte by byte: the buffer where it was written, zeros in a hole before it, elsewhere what was there. |
| `CallLaws.CloseReply` | kernel/src/fs/vfs.rs:395-405 | All cases: an unknown descriptor or a failing flush changes nothing; otherwise exactly the descriptor is gone. |
| `CallLaws.FailsLikeResolution` | kernel/src/fs/vfs.rs:259-520 | A path whose resolution fails makes every call fail the same way without effect. |
| `CallLaws.DotsMakeNoDifference` | kernel/src/fs/vfs.rs:353-520 | A path that resolves can be replaced, in every call, by the path of where it leads. |
| `CallLaws.RunNumbers` | kernel/src/drivers/fs/ram.rs:71-76 | In every run, mount ids and the node ids of each ramfs are given out from 0 without gaps. |
| `CallLaws.BootState` | kernel/src/fs/vfs.rs:69-71 | At boot nothing is mounted, no path resolves, and descriptors start at 1 and mounts at 0. |
| `PathParser.FromStr` | kernel/src/fs/path.rs:33-60 | The loop computes the specified segments or error. |
| `PathParser.ParsePrintRoundTrip` | kernel/src/fs/path.rs:14-60 | Printing the segments of an accepted string gives the string back; the list is not empty, is absolute exactly if the string starts with a slash, and only the root segment contains one. |
| `PathParser.PrintParseRoundTrip` | kernel/src/fs/path.rs:33-60 | A list of slash-free segments is parsed back from its spelling if and only if it does not start with an empty segment and is not a root followed by one empty segment. |
| `Wakeups.NextKeeps` | kernel/src/shell/keyboard.rs:18-64 | Every step of the main line and every interrupt keeps the protocol invariant, no lost wake-up included: a live shell that is neither polled nor queued is registered, and no scancode waits. |
| `Wakeups.RunKeeps` | kernel/src/shell/keyboard.rs:18-64 | So does every interleaving. |
| `Wakeups.NeverHaltsWithInputWaiting` | kernel/src/task/executor.rs:66-74 | In every interleaving from boot, a halted core with a live shell has an empty scancode queue, a registered waker and everything accepted delivered. |
| `Wakeups.DeliveryAndTaskSafety` | kernel/src/task/executor.rs:31-57 | In every interleaving from boot, delivered and queued scancodes are the accepted ones in order, but for at most one between them: the one in hand, which only a panic loses; wakes never outnumber registrations; a task that returned Ready is never polled again, whatever ids are still queued. |
| `Wakeups.NextTasks` | kernel/src/task/executor.rs:46-54 | A step takes a task out of the executor if and only if it ends a poll with Ready, and then exactly the polled one. |
| `Wakeups.TasksAreSpawned` | kernel/src/task/executor.rs:31-57 | In every interleaving from boot, live and finished tasks are apart and together are the spawned ones; where no poll returns Ready all stay live. |
| `Wakeups.FetchedInOrder` | kernel/src/task/executor.rs:39-44 | In every interleaving ids are fetched in the order they were queued, none skipped, and the queue holds those not fetched yet. |
| `Wakeups.QueuedIsPolled` | kernel/src/task/executor.rs:31-57 | Progress: a live task whose id is queued is polled after finitely many steps. |
| `Wakeups.AcceptsExactly` | kernel/src/shell/keyboard.rs:18-28 | A scancode is accepted if and only if it comes while interrupts are enabled, after the stream was created and while its queue of 100 has room. |
| `Wakeups.EverythingIsDelivered` | kernel/src/task/executor.rs:31-57 | Progress: from every reachable state with a live shell that does not exit, the main line alone delivers everything accepted so far. |
| `Wakeups.PanicsExactly` | kernel/src/task/executor.rs:90-93 | The kernel panics at a step if and only if a scancode is accepted while a waker is registered and the task queue is full. |
| `Wakeups.NoPanicWithFewRegistrations` | kernel/src/task/executor.rs:90-93 | A run whose spawned tasks and waker registrations together fit the task queue cannot panic. |
| `Wakeups.TaskQueueCanOverflow` | kernel/src/task/executor.rs:90-93 | The panic is reachable: a concrete interleaving of key presses that land between registration and second pop fills the task queue. |
| `Executor.Serve` | kernel/src/task/executor.rs:59-64 | The executor's code, from boot, for every list of interrupts, every way they interleave with it and every shell: the shell gets a prefix of what was accepted, even if the kernel panics, and nothing after what makes it exit; it stays live if and only if it has not exited, and once the core sleeps for good a live shell has got everything; when tasks and interrupts together fit the queue there is no panic and every scancode from the creation of the stream on is accepted, in order. |
| `Executor.Core.AddScancode` | kernel/src/shell/keyboard.rs:18-28 | The handler drops a scancode before the stream exists or when its queue is full, and otherwise queues it and wakes the registered task. |
| `Executor.Core.Wake` | kernel/src/task/executor.rs:90-103 | Waking empties the waker slot and queues its task; a full task queue panics. |
| `Executor.Core.PollNext` | kernel/src/shell/keyboard.rs:46-64 | Polling the stream, with interrupts between any two accesses, is a run of the protocol ending with a scancode in hand or pending. |
| `Executor.Core.PollShell` | kernel/src/shell/keyboard.rs:35-64 | Polling the shell creates the stream once and terminates, the shell either pending or done. |
| `Executor.Core.PollTask` | kernel/src/task/executor.rs:41-54 | A task that is done is removed together with its cached waker; every cached waker belongs to a live task. |
| `Executor.Core.RunReadyTasks` | kernel/src/task/executor.rs:31-57 | The loop is a run of the protocol, terminates for any finite number of interrupts and ends with the task queue found empty. |
| `Executor.Core.SleepIfIdle` | kernel/src/task/executor.rs:66-74 | Checks with interrupts disabled and halts only on an empty task queue, which is still empty while the core sleeps; any interrupt ends the sleep. |
| `Executor.Core.RunTasks` | kernel/src/task/executor.rs:59-64 | The executor's loop ends, for finitely many interrupts, asleep with all of them served, or panicked. |
| `Tokenizer.Parser.Next` | kernel/src/shell/parser.rs:22-116 | A token is a slice past everything consumed before and is the first token of the two-state lexer on the rest; the position strictly advances; none means no token is left, with the position at the end for good. |
| `Tokenizer.Tokenize` | kernel/src/shell/parser.rs:22-116 | Collecting all tokens gives the lexer's list. |
| `Tokenizer.TokensLoseNothing` | kernel/src/shell/parser.rs:22-116 | The tokens put together are the input without quotes and unquoted whitespace. |
| `Tokenizer.TokensOfJoin` | kernel/src/shell/parser.rs:22-116 | Tokenizing two inputs joined by a space or a tab gives both token lists in a row, for every second input, if and only if the first one's quotes are balanced. |
| `Tokenizer.StringIsOneToken` | kernel/src/shell/parser.rs:30-67 | A quoted string is a token of its own, empty or not, whatever touches its quotes. |
| `Tokenizer.UnclosedQuote` | kernel/src/shell/parser.rs:100-116 | A quote that is never closed makes the rest one token, or none if nothing follows. |
| `Tokenizer.OneCharacter` | kernel/src/shell/parser.rs:69-98 | Spaces, tabs and a lone quote are no tokens; any other character is one. |
| `Tokenizer.PrintedArgumentsRoundTrip` | kernel/src/shell/parser.rs:22-116 | Any list of quote-free arguments, printed with quotes around empty and whitespace-containing ones, tokenizes back to itself. |
| `Screen.Writer.WriteString` | kernel/src/vga.rs:87-96 | For every text the grid remains the last 25 rows of the unbounded log with the text written, unprintable bytes shown as blocks. |
| `Screen.Writer.WriteByte` | kernel/src/vga.rs:67-85 | The same for one byte: a newline starts a row, any other byte wraps at column 80 before it is placed. |
| `Screen.Writer.NewLine` | kernel/src/vga.rs:98-108 | The in-place shift and the clearing of the bottom row start a new row of the log; only the top row leaves the screen. |
| `Screen.Writer.ShiftUp` | kernel/src/vga.rs:99-104 | The nested loops move every row up by one in place. |
| `Screen.Writer.ClearRow` | kernel/src/vga.rs:110-119 | Blanks one row in the current colour and no other. |
| `Screen.Writer.SetColumnPosition` | kernel/src/vga.rs:188-193 | Moves the cursor within the line, at most to the width; the text is unchanged. |
| `Screen.TextWraps` | kernel/src/vga.rs:67-108 | n > 0 bytes without newlines from column c start exactly (c+n-1)/80 rows and end at column (c+n-1)%80+1. |
| `Screen.TextLayout` | kernel/src/vga.rs:67-119 | What every cell shows after such a text: the character of the text that belongs there, what was there before, or a blank on a new row. |
| `Screen.NewlineStarts` | kernel/src/vga.rs:67-71 | A newline starts a blank row at its first column and leaves all others as they are. |
| `Screen.AnyTextWraps` | kernel/src/vga.rs:67-108 | Any text, newlines included, starts one row per newline and the wraps of each line, and ends in the column of its last line. |
| `Screen.LineLayout` | kernel/src/vga.rs:67-119 | After any text, a newline lays the next line out, cell by cell, from the first column of a blank row below everything written, which stays as it is. |
| `Screen.LastLine` | kernel/src/vga.rs:87-96 | Every text is one line, or some text, a newline and a line, so the two layouts determine every cell. |
| `Frames.BootInfoFrameAllocator.AllocateFrame` | kernel/src/memory.rs:74-78 | Returns the next frame of the enumeration, or none, and counts the call. |
| `Frames.EnumeratesUsable` | kernel/src/memory.rs:59-70 | The enumeration holds exactly the frames of usable regions. |
| `Frames.EnumeratesOnce` | kernel/src/memory.rs:59-70 | With disjoint regions no frame is enumerated twice. |
| `Frames.EnumeratesInOrder` | kernel/src/memory.rs:59-70 | With regions in address order, frames are handed out in address order. |
| `Frames.AllocateMany` | kernel/src/memory.rs:74-78 | Any number of allocations from boot: all usable, pairwise distinct, every usable frame handed out before the first none, and none for ever after. |

## Left out

- Integer widths: ids, offsets, lengths and counts are unbounded; 64-bit wrap-around of ids and overflow of `offset + buffer.len()` are not modelled.
- Multi-core races and lock order: one executor on one core; locks are not modelled.
- Nodes as heap objects: nodes live in a table indexed by mount and node id. Device nodes that nothing refers to stay in it, and aliasing is by id.
- Driver data: a ramfs file's byte vector and a directory's children are values in the node table that methods replace; the caller's read buffer is an array changed in place.
- Order within maps: the mount table is visited by increasing mount id and listings are maps, so the order of a listing is not modelled.
- The waker's and the queues' internals: `AtomicWaker` and `ArrayQueue` operations are single steps, as is enabling interrupts with the halt; memory ordering is not modelled.
- Executor.Core: the tasks are spawned before the executor runs; `spawn`'s panics on a repeated id or a full queue are the condition that the spawned ids are distinct and fit the queue.
- Executor.Core.HandleScancode: what the shell does with a scancode is left open except whether it exits, which is any function of the scancodes it was given; tasks other than the shell are never woken.
- CallLaws.DotsMakeNoDifference: needs the normal form to have a path; `/./` leads to a name that is empty, which no path without dots spells.
- Executor.Serve: finitely many interrupts; after the last one the core stays halted, where the kernel would wait for more.
- Tokenizer.Parser.Next: input is ASCII, as the kernel asserts when it makes a parser.
- Frames.EnumeratesOnce: needs disjoint regions, as the bootloader's memory map promises; regions are whole frames.
- Append mode: a file can be opened for appending, but `write` accepts only the write mode, so nothing is appended; offsets of such descriptors never move.
- `metadata.size`, timestamps, the dirty flag, mount flags and limits on sizes: never read or updated by the modelled code.
- `remove_file`, `remove_directory`, `unmount`, `seek` and fs type detection: not reachable from the VFS calls or not implemented.
- Shell commands, line editing, history, `Display` text, and colour changes of the screen writer: these are user interface.
- Hardware and library plumbing: descriptor tables, interrupt controller, paging, VGA ports and cursor, the heap allocator.
- Registries, floppy and RAM disk stubs: the two file system kinds and the device table are given.
