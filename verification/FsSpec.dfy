/**
  The specification of the virtual file system: what every call returns and
  changes, stated on the namespace alone. There is no directory cache here.
 */
module FsSpec {
  import opened FsTypes
  import opened Namespace
  import PathParser

  datatype OpenFile = OpenFile(view: View, mode: FileMode, position: nat)

  /** `nextNode` is the next node id of each mounted ramfs. */
  datatype Fs = Fs(
    ns: Namespace,
    nextNode: map<MountId, nat>,
    files: map<FileDescriptor, OpenFile>,
    nextFd: FileDescriptor,
    nextMount: MountId)

  function Initial(devices: map<string, DeviceKind>): Fs {
    Fs(Namespace(map[], map[], devices), map[], map[], 1, 0)
  }

  // ---------------------------------------------------------------------
  // Resolution of path strings
  // ---------------------------------------------------------------------

  /** The segments below the root, or the reason there are none. */
  function Segments(ns: Namespace, path: string): Outcome<seq<string>> {
    var p := PathParser.Parse(path);
    if p.NonAscii? then Panic
    else if !p.Parsed? then Err(InvalidPath)
    else if !PathParser.IsAbsolute(p.segments) then Panic
    else if [] !in ns.mountAt then Err(NoRootDirectory)
    else Ok(p.segments[1..])
  }

  function Resolve(ns: Namespace, path: string): Outcome<Option<Location>> {
    var segments :- Segments(ns, path);
    OfWalk(Walk(ns, [], segments))
  }

  function OfWalk(w: WalkResult): Outcome<Option<Location>> {
    match w
    case Found(l) => Ok(Some(l))
    case Missing => Ok(None)
    case NotDirectory => Err(NotADirectory)
  }

  function ResolveParent(ns: Namespace, path: string): Outcome<(Location, string)> {
    var segments :- Segments(ns, path);
    if segments == [] then Err(InvalidPath) else ParentWalk(ns, [], segments)
  }

  // ---------------------------------------------------------------------
  // Growing the tree
  // ---------------------------------------------------------------------

  /** A ramfs directory: a node whose driver can create children. */
  predicate Creator(fs: Fs, d: NodeRef) {
    d in fs.ns.data && fs.ns.data[d].RamDirectory? && d.mount in fs.nextNode
  }

  function CreatorAt(fs: Fs, dir: Location): Option<NodeRef> {
    var v := NodeAt(fs.ns, dir);
    if v.Some? && v.value.Stable? && Creator(fs, v.value.node) then Some(v.value.node) else None
  }

  function NewNode(fs: Fs, d: NodeRef): NodeRef
    requires Creator(fs, d)
  {
    NodeRef(d.mount, fs.nextNode[d.mount])
  }

  function Create(fs: Fs, d: NodeRef, name: string, data: NodeData): Fs
    requires Creator(fs, d)
  {
    fs.(ns := AddChild(fs.ns, d, name, NewNode(fs, d), data),
        nextNode := fs.nextNode[d.mount := fs.nextNode[d.mount] + 1])
  }

  function RootData(kind: FsKind): NodeData {
    if kind.RamFs? then RamDirectory(map[]) else NoData
  }

  function AddMount(fs: Fs, loc: Location, kind: FsKind): Fs {
    var m := fs.nextMount;
    fs.(ns := MountRoot(fs.ns, loc, m, RootData(kind)),
        nextNode := if kind.RamFs? then fs.nextNode[m := 1] else fs.nextNode,
        nextMount := m + 1)
  }

  // ---------------------------------------------------------------------
  // The calls
  // ---------------------------------------------------------------------

  function FindFsKind(name: string): Option<FsKind> {
    if name == "ramfs" then Some(RamFs) else if name == "devfs" then Some(DevFs) else None
  }

  function MountAtRoot(fs: Fs, source: string, kind: FsKind): (Fs, Outcome<MountId>) {
    if [] in fs.ns.mountAt then (fs, Err(AlreadyExists))
    else if source != "" then (fs, Panic)
    else (AddMount(fs, [], kind), Ok(fs.nextMount))
  }

  /** Mounting over something that exists is not implemented and panics. */
  function MountBelow(fs: Fs, source: string, target: string, kind: FsKind): (Fs, Outcome<MountId>) {
    var r := Resolve(fs.ns, target);
    if !r.Ok? then (fs, r.PropagateFailure())
    else if r.value.Some? then (fs, Panic)
    else
      var p := ResolveParent(fs.ns, target);
      if !p.Ok? then (fs, p.PropagateFailure())
      else if source != "" then (fs, Panic)
      else (AddMount(fs, p.value.0 + [p.value.1], kind), Ok(fs.nextMount))
  }

  function Mount(fs: Fs, source: string, target: string, kind: Option<string>): (Fs, Outcome<MountId>) {
    if kind.None? then (fs, Panic)
    else
      var ty := FindFsKind(kind.value);
      if ty.None? then (fs, Err(FileSystemTypeNotFound))
      else if target == "/" then MountAtRoot(fs, source, ty.value)
      else MountBelow(fs, source, target, ty.value)
  }

  /** Opening a node; `hook` is the error of the driver's open hook, if any. */
  function OpenNode(fs: Fs, v: View, mode: FileMode, hook: Option<IoError>): (Fs, Outcome<FileDescriptor>) {
    if hook.Some? then (fs, Err(hook.value))
    else (fs.(files := fs.files[fs.nextFd := OpenFile(v, mode, 0)], nextFd := fs.nextFd + 1), Ok(fs.nextFd))
  }

  /** The node a path names, created as an empty file if it is missing and the
      mode writes. */
  function FindOrCreate(fs: Fs, path: string, mode: FileMode): (Fs, Outcome<View>) {
    var r := Resolve(fs.ns, path);
    if !r.Ok? then (fs, r.PropagateFailure())
    else if r.value.Some? then
      var v := NodeAt(fs.ns, r.value.value);
      if v.None? then (fs, Err(EntryNotFound))  // a resolved location always holds a node
      else if mode.IsMutating() && IsDirectory(fs.ns, v.value) then (fs, Err(NotAFile))
      else (fs, Ok(v.value))
    else if !mode.IsMutating() then (fs, Err(EntryNotFound))
    else
      var p := ResolveParent(fs.ns, path);
      if !p.Ok? then (fs, p.PropagateFailure())
      else
        var d := CreatorAt(fs, p.value.0);
        if d.None? then (fs, Err(OperationNotSupported))
        else (Create(fs, d.value, p.value.1, RamFile([])), Ok(Stable(NewNode(fs, d.value))))
  }

  function Open(fs: Fs, path: string, mode: FileMode, hook: Option<IoError>): (Fs, Outcome<FileDescriptor>) {
    var (fs1, v) := FindOrCreate(fs, path, mode);
    if v.Ok? then OpenNode(fs1, v.value, mode, hook) else (fs1, v.PropagateFailure())
  }

  function CreateDirectory(fs: Fs, path: string): (Fs, Outcome<Location>) {
    var r := Resolve(fs.ns, path);
    if !r.Ok? then (fs, r.PropagateFailure())
    else if r.value.Some? then (fs, Err(AlreadyExists))
    else
      var p := ResolveParent(fs.ns, path);
      if !p.Ok? then (fs, p.PropagateFailure())
      else
        var d := CreatorAt(fs, p.value.0);
        if d.None? then (fs, Err(OperationNotSupported))
        else (Create(fs, d.value, p.value.1, RamDirectory(map[])), Ok(p.value.0 + [p.value.1]))
  }

  function Stat(fs: Fs, path: string): Outcome<Location> {
    var r := Resolve(fs.ns, path);
    if !r.Ok? then r.PropagateFailure()
    else if r.value.Some? then Ok(r.value.value)
    else Err(EntryNotFound)
  }

  /** Closing; `flush` is the error of the driver's flush hook, if any. */
  function Close(fs: Fs, fd: FileDescriptor, flush: Option<IoError>): (Fs, Outcome<()>) {
    if fd !in fs.files then (fs, Err(InvalidFile))
    else if flush.Some? then (fs, Err(flush.value))
    else (fs.(files := fs.files - {fd}), Ok(()))
  }

  function Min(a: nat, b: nat): nat {
    if a < b then a else b
  }

  /** What a read of at most `size` bytes at an offset delivers. */
  function Slice(bytes: seq<byte>, offset: nat, size: nat): seq<byte> {
    if offset > |bytes| then [] else bytes[offset..offset + Min(size, |bytes| - offset)]
  }

  function Zeros(n: nat): seq<byte> {
    seq(n, i => 0)
  }

  /** A write at an offset: grow with zeros if needed, then overwrite. */
  function Splice(bytes: seq<byte>, offset: nat, buffer: seq<byte>): seq<byte> {
    var end := offset + |buffer|;
    var grown := if end > |bytes| then bytes + Zeros(end - |bytes|) else bytes;
    grown[..offset] + buffer + grown[end..]
  }

  function Advance(fs: Fs, fd: FileDescriptor, n: nat): Fs
    requires fd in fs.files
  {
    fs.(files := fs.files[fd := fs.files[fd].(position := fs.files[fd].position + n)])
  }

  function ReadFile(fs: Fs, fd: FileDescriptor, size: nat): (Fs, Outcome<seq<byte>>) {
    if fd !in fs.files then (fs, Err(InvalidFile))
    else
      var f := fs.files[fd];
      if IsDirectory(fs.ns, f.view) then (fs, Panic)
      else if !f.mode.Read? then (fs, Err(InvalidMode))
      else
        match f.view
        case Stable(r) =>
          if r in fs.ns.data && fs.ns.data[r].RamFile? then
            var got := Slice(fs.ns.data[r].bytes, f.position, size);
            (Advance(fs, fd, |got|), Ok(got))
          else (fs, Panic)
        case DeviceNode(_, name) =>
          if name in fs.ns.devices && fs.ns.devices[name].ZeroDevice? then
            (Advance(fs, fd, size), Ok(Zeros(size)))
          else (fs, Err(OperationNotSupported))
  }

  function WriteFile(fs: Fs, fd: FileDescriptor, buffer: seq<byte>): (Fs, Outcome<nat>) {
    if fd !in fs.files then (fs, Err(InvalidFile))
    else
      var f := fs.files[fd];
      if IsDirectory(fs.ns, f.view) then (fs, Panic)
      else if !f.mode.Write? then (fs, Err(InvalidMode))
      else
        match f.view
        case Stable(r) =>
          if r in fs.ns.data && fs.ns.data[r].RamFile? then
            var bytes := Splice(fs.ns.data[r].bytes, f.position, buffer);
            (Advance(fs.(ns := fs.ns.(data := fs.ns.data[r := RamFile(bytes)])), fd, |buffer|), Ok(|buffer|))
          else (fs, Panic)
        case DeviceNode(_, name) =>
          if name in fs.ns.devices && fs.ns.devices[name].NullDevice? then
            (Advance(fs, fd, |buffer|), Ok(|buffer|))
          else (fs, Err(OperationNotSupported))
  }

  /** What a directory listing shows of a node; device ids are not stable. */
  datatype Listed = Listed(kind: NodeKind, id: Option<nat>)

  function ListedAs(ns: Namespace, v: View): Listed {
    match v
    case DeviceNode(_, _) => Listed(CharDevice, None)
    case Stable(r) => Listed(if IsDirectory(ns, v) then Directory else RegularFile, Some(r.id))
  }

  function DriverNames(ns: Namespace, v: View): set<string> {
    if v.Stable? && v.node in ns.data then
      match ns.data[v.node]
      case RamDirectory(children) => children.Keys
      case NoData => ns.devices.Keys
      case _ => {}
    else {}
  }

  /** The names in a directory: the driver's and those of mounts. */
  function Names(ns: Namespace, loc: Location): set<string>
    requires NodeAt(ns, loc).Some?
  {
    DriverNames(ns, NodeAt(ns, loc).value)
    + set l | l in ns.mountAt && l != [] && Parent(l) == loc :: Last(l)
  }

  function Listing(ns: Namespace, loc: Location): map<string, Listed>
    requires NodeAt(ns, loc).Some?
  {
    map n | n in Names(ns, loc) && NodeAt(ns, loc + [n]).Some? :: ListedAs(ns, NodeAt(ns, loc + [n]).value)
  }

  function ReadDirectory(fs: Fs, path: string): Outcome<map<string, Listed>> {
    var r := Resolve(fs.ns, path);
    if !r.Ok? then r.PropagateFailure()
    else if r.value.None? || NodeAt(fs.ns, r.value.value).None? then Err(EntryNotFound)
    else if !DirectoryAt(fs.ns, r.value.value) then Err(NotADirectory)
    else Ok(Listing(fs.ns, r.value.value))
  }

  // ---------------------------------------------------------------------
  // Runs
  // ---------------------------------------------------------------------

  /** The calls of clients. `Drop` lets go of a directory entry held by a
      client; it and `Prune` concern the cache only. */
  datatype Op =
    | MountOp(source: string, target: string, kind: Option<string>)
    | OpenOp(path: string, mode: FileMode, hook: Option<IoError>)
    | CloseOp(fd: FileDescriptor, flush: Option<IoError>)
    | ReadOp(fd: FileDescriptor, size: nat)
    | WriteOp(fd: FileDescriptor, buffer: seq<byte>)
    | ListOp(path: string)
    | MkdirOp(path: string)
    | StatOp(path: string)
    | DropOp(entry: EntryId)
    | PruneOp

  datatype Reply =
    | Mounted(mount: Outcome<MountId>)
    | Opened(fd: Outcome<FileDescriptor>)
    | Closed(done: Outcome<()>)
    | GotBytes(bytes: Outcome<seq<byte>>)
    | Written(count: Outcome<nat>)
    | Entries(listing: Outcome<map<string, Listed>>)
    | Entry(location: Outcome<Location>)
    | Silent

  predicate IsPanic(r: Reply) {
    match r
    case Mounted(o) => o.Panic?
    case Opened(o) => o.Panic?
    case Closed(o) => o.Panic?
    case GotBytes(o) => o.Panic?
    case Written(o) => o.Panic?
    case Entries(o) => o.Panic?
    case Entry(o) => o.Panic?
    case Silent => false
  }

  function Step(fs: Fs, op: Op): (Fs, Reply) {
    match op
    case MountOp(source, target, kind) => var (fs', o) := Mount(fs, source, target, kind); (fs', Mounted(o))
    case OpenOp(path, mode, hook) => var (fs', o) := Open(fs, path, mode, hook); (fs', Opened(o))
    case CloseOp(fd, flush) => var (fs', o) := Close(fs, fd, flush); (fs', Closed(o))
    case ReadOp(fd, size) => var (fs', o) := ReadFile(fs, fd, size); (fs', GotBytes(o))
    case WriteOp(fd, buffer) => var (fs', o) := WriteFile(fs, fd, buffer); (fs', Written(o))
    case ListOp(path) => (fs, Entries(ReadDirectory(fs, path)))
    case MkdirOp(path) => var (fs', o) := CreateDirectory(fs, path); (fs', Entry(o))
    case StatOp(path) => (fs, Entry(Stat(fs, path)))
    case DropOp(_) => (fs, Silent)
    case PruneOp => (fs, Silent)
  }

  /** A whole run; a panic is the last thing that happens. */
  function Run(fs: Fs, ops: seq<Op>): (Fs, seq<Reply>)
    decreases |ops|
  {
    if ops == [] then (fs, [])
    else
      var (fs1, reply) := Step(fs, ops[0]);
      if IsPanic(reply) then (fs1, [reply])
      else
        var (fs2, replies) := Run(fs1, ops[1..]);
        (fs2, [reply] + replies)
  }
}
