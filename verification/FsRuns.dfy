/** What clients can rely on over whole runs of the virtual file system. */
module FsRuns {
  import opened FsTypes
  import opened Namespace
  import opened FsSpec
  import opened FsInvariants

  predicate NoPanic(replies: seq<Reply>) {
    forall i :: 0 <= i < |replies| ==> !IsPanic(replies[i])
  }

  /** Runs compose: after a run without panics, the rest runs from where it ended. */
  lemma {:induction false} RunAppend(fs: Fs, a: seq<Op>, b: seq<Op>)
    requires NoPanic(Run(fs, a).1)
    ensures |Run(fs, a).1| == |a|
    ensures var (fs1, replies) := Run(fs, a);
            Run(fs, a + b) == (Run(fs1, b).0, replies + Run(fs1, b).1)
    decreases |a|
  {
    hide Step;
    if a == [] {
      assert a + b == b && [] + Run(fs, b).1 == Run(fs, b).1;
    } else {
      var (fs1, reply) := Step(fs, a[0]);
      assert (a + b)[0] == a[0] && (a + b)[1..] == a[1..] + b;
      var (fs2, replies) := Run(fs1, a[1..]);
      assert Run(fs, a).1[0] == reply && !IsPanic(reply);
      assert forall i :: 0 <= i < |replies| ==> replies[i] == Run(fs, a).1[i + 1];
      RunAppend(fs1, a[1..], b);
      assert [reply] + (replies + Run(fs2, b).1) == [reply] + replies + Run(fs2, b).1;
    }
  }

  lemma RunSnoc(fs: Fs, a: seq<Op>, op: Op)
    requires NoPanic(Run(fs, a).1)
    ensures |Run(fs, a).1| == |a|
    ensures var (fs1, replies) := Run(fs, a);
            var (fs2, reply) := Step(fs1, op);
            Run(fs, a + [op]) == (fs2, replies + [reply])
  {
    hide Step;
    RunAppend(fs, a, [op]);
    var fs1 := Run(fs, a).0;
    assert [op][0] == op && [op][1..] == [];
    assert [Step(fs1, op).1] + [] == [Step(fs1, op).1];
  }

  // ---------------------------------------------------------------------
  // Descriptors
  // ---------------------------------------------------------------------

  /** A step hands out the next descriptor or none, and opens no other. */
  lemma StepDescriptors(fs: Fs, op: Op)
    ensures var (fs', reply) := Step(fs, op);
            && fs.nextFd <= fs'.nextFd
            && (forall fd :: fd in fs'.files && fd !in fs.files ==> fd == fs.nextFd < fs'.nextFd)
            && (reply.Opened? && reply.fd.Ok? ==> reply.fd.value == fs.nextFd < fs'.nextFd)
  {
    hide FindOrCreate, Mount, CreateDirectory, ReadDirectory, Stat, IsDirectory, Slice, Splice, Zeros;
    DescriptorsApart(fs, op);
  }

  /** Creating nodes and mounting leave the descriptor table alone. */
  lemma DescriptorsApart(fs: Fs, op: Op)
    ensures op.OpenOp? ==>
              var fs' := FindOrCreate(fs, op.path, op.mode).0; fs'.files == fs.files && fs'.nextFd == fs.nextFd
    ensures op.MountOp? || op.MkdirOp? ==>
              var fs' := Step(fs, op).0; fs'.files == fs.files && fs'.nextFd == fs.nextFd
  {
    hide Resolve, ResolveParent, CreatorAt, AddChild, MountRoot, NodeAt;
  }

  /** A descriptor that was handed out and closed is never open again, so every
      further use of it fails with InvalidFile and changes nothing. */
  lemma {:induction false} ClosedForGood(fs: Fs, fd: FileDescriptor, ops: seq<Op>)
    requires fd < fs.nextFd && fd !in fs.files
    ensures var fs' := Run(fs, ops).0;
            && fd !in fs'.files
            && (forall flush :: Step(fs', CloseOp(fd, flush)) == (fs', Closed(Err(InvalidFile))))
            && (forall n :: Step(fs', ReadOp(fd, n)) == (fs', GotBytes(Err(InvalidFile))))
            && (forall b :: Step(fs', WriteOp(fd, b)) == (fs', Written(Err(InvalidFile))))
    decreases |ops|
  {
    if ops != [] {
      StepDescriptors(fs, ops[0]);
      var (fs1, reply) := Step(fs, ops[0]);
      if !IsPanic(reply) {
        ClosedForGood(fs1, fd, ops[1..]);
      }
    }
  }

  /** Descriptors handed out in a run are strictly increasing: none is reused. */
  lemma {:induction false} DescriptorsNeverReused(fs: Fs, ops: seq<Op>, i: nat, j: nat)
    requires var replies := Run(fs, ops).1;
             && i < j < |replies|
             && replies[i].Opened? && replies[i].fd.Ok?
             && replies[j].Opened? && replies[j].fd.Ok?
    ensures var replies := Run(fs, ops).1;
            fs.nextFd <= replies[i].fd.value < replies[j].fd.value
    decreases |ops|
  {
    hide Step;
    var (fs1, reply) := Step(fs, ops[0]);
    StepDescriptors(fs, ops[0]);
    var rest := Run(fs1, ops[1..]).1;
    if i > 0 {
      DescriptorsNeverReused(fs1, ops[1..], i - 1, j - 1);
    } else {
      HandedOutLater(fs1, ops[1..], j - 1);
    }
  }

  lemma {:induction false} HandedOutLater(fs: Fs, ops: seq<Op>, j: nat)
    requires var replies := Run(fs, ops).1; j < |replies| && replies[j].Opened? && replies[j].fd.Ok?
    ensures fs.nextFd <= Run(fs, ops).1[j].fd.value
    decreases |ops|
  {
    hide Step;
    StepDescriptors(fs, ops[0]);
    if j > 0 {
      HandedOutLater(Step(fs, ops[0]).0, ops[1..], j - 1);
    }
  }

  /** While a descriptor stays open it stays on the node and in the mode it was
      opened with. */
  lemma {:induction false} DescriptorsStayPut(fs: Fs, fd: FileDescriptor, ops: seq<Op>)
    requires fd < fs.nextFd && fd in fs.files
    ensures var fs' := Run(fs, ops).0;
            fd in fs'.files ==> fs'.files[fd].view == fs.files[fd].view && fs'.files[fd].mode == fs.files[fd].mode
    decreases |ops|
  {
    hide Step;
    if ops != [] {
      StepDescriptors(fs, ops[0]);
      StepCursor(fs, ops[0], fd);
      var (fs1, reply) := Step(fs, ops[0]);
      if !IsPanic(reply) {
        if fd in fs1.files {
          DescriptorsStayPut(fs1, fd, ops[1..]);
        } else {
          ClosedForGood(fs1, fd, ops[1..]);
        }
      }
    }
  }

  // ---------------------------------------------------------------------
  // Runs and their prefixes
  // ---------------------------------------------------------------------

  /** Nothing follows a panic. */
  lemma {:induction false} PanicEnds(fs: Fs, a: seq<Op>, b: seq<Op>)
    requires !NoPanic(Run(fs, a).1)
    ensures Run(fs, a + b) == Run(fs, a) && |Run(fs, a).1| <= |a|
    decreases |a|
  {
    hide Step;
    assert (a + b)[0] == a[0] && (a + b)[1..] == a[1..] + b;
    var (fs1, reply) := Step(fs, a[0]);
    if !IsPanic(reply) {
      var replies := Run(fs1, a[1..]).1;
      assert Run(fs, a).1 == [reply] + replies;
      PanicEnds(fs1, a[1..], b);
    }
  }

  /** Each reply of a run is that of its call in the state the calls before led to. */
  lemma {:induction false} RunPrefix(fs: Fs, ops: seq<Op>, i: nat)
    requires i < |Run(fs, ops).1|
    ensures i < |ops| && NoPanic(Run(fs, ops[..i]).1)
    ensures var (fs1, replies) := Run(fs, ops[..i]);
            replies == Run(fs, ops).1[..i] && Run(fs, ops).1[i] == Step(fs1, ops[i]).1
    decreases i
  {
    hide Step;
    if i > 0 {
      var (fs1, reply) := Step(fs, ops[0]);
      RunPrefix(fs1, ops[1..], i - 1);
      assert ops[..i][0] == ops[0] && ops[..i][1..] == ops[1..][..i - 1];
      var rest := Run(fs1, ops[1..]).1;
      assert ([reply] + rest)[..i] == [reply] + rest[..i - 1];
    }
  }

  // ---------------------------------------------------------------------
  // Offsets and contents
  // ---------------------------------------------------------------------

  /** A descriptor open on ramfs file `r`. */
  predicate OpenAs(fs: Fs, fd: FileDescriptor, r: NodeRef, mode: FileMode) {
    fd in fs.files && fs.files[fd].view == Stable(r) && fs.files[fd].mode == mode
  }

  predicate IsFile(fs: Fs, r: NodeRef) {
    r in fs.ns.data && fs.ns.data[r].RamFile?
  }

  /** The bytes a call transfers through a descriptor. */
  function Transferred(op: Op, reply: Reply, fd: FileDescriptor): nat {
    if op.WriteOp? && op.fd == fd && reply.Written? && reply.count.Ok? then reply.count.value
    else if op.ReadOp? && op.fd == fd && reply.GotBytes? && reply.bytes.Ok? then |reply.bytes.value|
    else 0
  }

  function TotalTransferred(ops: seq<Op>, replies: seq<Reply>, fd: FileDescriptor): nat
    requires |ops| == |replies|
  {
    if ops == [] then 0
    else
      var n := |ops| - 1;
      TotalTransferred(ops[..n], replies[..n], fd) + Transferred(ops[n], replies[n], fd)
  }

  /** A descriptor's running offset: what was transferred through it, from where it
      stood at first; descriptors opened on the way start at zero. */
  function Offset(fs: Fs, ops: seq<Op>, replies: seq<Reply>, fd: FileDescriptor): nat
    requires |ops| == |replies|
  {
    (if fd in fs.files then fs.files[fd].position else 0) + TotalTransferred(ops, replies, fd)
  }

  /** Bytes replaced in place from an offset within the file, or appended past its end. */
  function Overwrite(bytes: seq<byte>, offset: nat, buffer: seq<byte>): seq<byte>
    requires offset <= |bytes|
  {
    var end := offset + |buffer|;
    bytes[..offset] + buffer + if end < |bytes| then bytes[end..] else []
  }

  /** A call that wrote, through a descriptor on `r`. */
  predicate WritesTo(fs: Fs, op: Op, reply: Reply, r: NodeRef) {
    op.WriteOp? && reply.Written? && reply.count.Ok? && op.fd in fs.files && fs.files[op.fd].view == Stable(r)
  }

  /** What a file should hold after some calls: what it held at first, or nothing
      if it is new, with every successful write through a descriptor on it laid
      over at that descriptor's running offset. */
  function Replay(fs: Fs, r: NodeRef, ops: seq<Op>, replies: seq<Reply>): Option<seq<byte>>
    requires |ops| == |replies|
  {
    if ops == [] then Some(if IsFile(fs, r) then fs.ns.data[r].bytes else [])
    else
      var n := |ops| - 1;
      var bytes := Replay(fs, r, ops[..n], replies[..n]);
      if bytes.Some? && WritesTo(Run(fs, ops[..n]).0, ops[n], replies[n], r) then
        var offset := Offset(fs, ops[..n], replies[..n], ops[n].fd);
        if offset <= |bytes.value| then Some(Overwrite(bytes.value, offset, ops[n].buffer)) else None
      else bytes
  }

  lemma SpliceInside(bytes: seq<byte>, offset: nat, buffer: seq<byte>)
    requires offset <= |bytes|
    ensures Splice(bytes, offset, buffer) == Overwrite(bytes, offset, buffer)
  {
    var end := offset + |buffer|;
    if end >= |bytes| {
      var grown := bytes + Zeros(end - |bytes|);
      assert grown[..offset] == bytes[..offset];
      assert end == |bytes| ==> grown == bytes;
    }
  }

  // ---------------------------------------------------------------------
  // What one call does to one descriptor and to one file
  // ---------------------------------------------------------------------

  lemma StepCursor(fs: Fs, op: Op, fd: FileDescriptor)
    requires fd in fs.files ==> fd < fs.nextFd
    ensures var (fs', reply) := Step(fs, op);
            && (fd in fs.files && fd in fs'.files ==>
                  && fs'.files[fd].view == fs.files[fd].view && fs'.files[fd].mode == fs.files[fd].mode
                  && fs'.files[fd].position == fs.files[fd].position + Transferred(op, reply, fd))
            && (fd !in fs.files ==> Transferred(op, reply, fd) == 0)
            && (fd !in fs.files && fd in fs'.files ==> fd == fs.nextFd && fs'.files[fd].position == 0)
  {
    hide FindOrCreate, Mount, CreateDirectory, ReadDirectory, Stat, IsDirectory, Slice, Splice;
    DescriptorsApart(fs, op);
  }

  /** A file keeps existing, and holds what it held, or what the call wrote to it
      laid over at the descriptor's offset, which lies inside it. */
  ghost predicate FileStep(fs: Fs, op: Op, r: NodeRef) {
    var (fs', reply) := Step(fs, op);
    && (r in fs.ns.data ==> r in fs'.ns.data)
    && (WritesTo(fs, op, reply, r) ==> IsFile(fs, r) && fs.files[op.fd].position <= |fs.ns.data[r].bytes|)
    && (IsFile(fs, r) ==>
          && IsFile(fs', r)
          && fs'.ns.data[r].bytes ==
             if WritesTo(fs, op, reply, r) then Overwrite(fs.ns.data[r].bytes, fs.files[op.fd].position, op.buffer)
             else fs.ns.data[r].bytes)
    && (IsFile(fs', r) && !IsFile(fs, r) ==> r !in fs.ns.data && fs'.ns.data[r].bytes == [])
  }

  lemma WriteStepsFile(fs: Fs, op: Op, r: NodeRef)
    requires Invariant(fs) && op.WriteOp?
    ensures FileStep(fs, op, r)
  {
    hide Invariant, Splice, Overwrite;
    if op.fd in fs.files {
      FileIsOk(fs, op.fd);
      var f := fs.files[op.fd];
      if f.view.Stable? && IsFile(fs, f.view.node) {
        SpliceInside(fs.ns.data[f.view.node].bytes, f.position, op.buffer);
      }
    }
  }

  lemma CreateStepsFile(fs: Fs, d: NodeRef, name: string, data: NodeData, r: NodeRef)
    requires Invariant(fs) && Creator(fs, d) && (data == RamFile([]) || data == RamDirectory(map[]))
    ensures var fs' := Create(fs, d, name, data);
            && (r in fs.ns.data ==> r in fs'.ns.data)
            && (IsFile(fs, r) ==> IsFile(fs', r) && fs'.ns.data[r] == fs.ns.data[r])
            && (IsFile(fs', r) && !IsFile(fs, r) ==> r !in fs.ns.data && fs'.ns.data[r].bytes == [])
  {
    hide WellFormed, TreeShaped, FilesOk;
  }

  lemma MountStepsFile(fs: Fs, at: Location, kind: FsKind, r: NodeRef)
    requires Invariant(fs)
    ensures var fs' := AddMount(fs, at, kind);
            && (r in fs.ns.data ==> r in fs'.ns.data && fs'.ns.data[r] == fs.ns.data[r])
            && (IsFile(fs', r) ==> IsFile(fs, r))
  {
    hide WellFormed, TreeShaped, FilesOk;
  }

  lemma OpenStepsFile(fs: Fs, op: Op, r: NodeRef)
    requires Invariant(fs) && (op.OpenOp? || op.MkdirOp?)
    ensures FileStep(fs, op, r)
  {
    hide Invariant, Resolve, ResolveParent, Create, CreatorAt, Overwrite, NodeAt, IsDirectory;
    var p := ResolveParent(fs.ns, op.path);
    if p.Ok? && CreatorAt(fs, p.value.0).Some? {
      CreatorIsCreator(fs, p.value.0);
      var d := CreatorAt(fs, p.value.0).value;
      CreateStepsFile(fs, d, p.value.1, RamFile([]), r);
      CreateStepsFile(fs, d, p.value.1, RamDirectory(map[]), r);
    }
  }

  lemma MountOpStepsFile(fs: Fs, op: Op, r: NodeRef)
    requires Invariant(fs) && op.MountOp?
    ensures FileStep(fs, op, r)
  {
    hide Invariant, Resolve, ResolveParent, AddMount, Overwrite;
    var k := if op.kind.Some? then FindFsKind(op.kind.value) else None;
    if k.Some? {
      MountStepsFile(fs, [], k.value, r);
      var p := ResolveParent(fs.ns, op.target);
      if p.Ok? {
        MountStepsFile(fs, p.value.0 + [p.value.1], k.value, r);
      }
    }
  }

  lemma StepFile(fs: Fs, op: Op, r: NodeRef)
    requires Invariant(fs)
    ensures FileStep(fs, op, r)
  {
    hide Invariant, Overwrite, ReadDirectory, Stat, Slice, Zeros, IsDirectory;
    match op
    case WriteOp(_, _) => WriteStepsFile(fs, op, r);
    case OpenOp(_, _, _) => OpenStepsFile(fs, op, r);
    case MkdirOp(_) => OpenStepsFile(fs, op, r);
    case MountOp(_, _, _) => MountOpStepsFile(fs, op, r);
    case _ =>
  }

  lemma CreatorIsCreator(fs: Fs, dir: Location)
    requires CreatorAt(fs, dir).Some?
    ensures Creator(fs, CreatorAt(fs, dir).value)
  {
  }

  // ---------------------------------------------------------------------
  // Contents over whole runs
  // ---------------------------------------------------------------------

  /** A file holds its replay; one that does not exist yet would start empty. */
  ghost predicate FileTracked(fs: Fs, fs': Fs, ops: seq<Op>, replies: seq<Reply>, r: NodeRef)
    requires |ops| == |replies|
  {
    && (IsFile(fs, r) ==> IsFile(fs', r))
    && (IsFile(fs', r) ==> Replay(fs, r, ops, replies) == Some(fs'.ns.data[r].bytes))
    && (r !in fs'.ns.data ==> Replay(fs, r, ops, replies) == Some([]))
  }

  /** An open descriptor is at its running offset; one not handed out yet is at zero. */
  ghost predicate CursorTracked(fs: Fs, fs': Fs, ops: seq<Op>, replies: seq<Reply>, fd: FileDescriptor)
    requires |ops| == |replies|
  {
    && (fd in fs'.files ==> fs'.files[fd].position == Offset(fs, ops, replies, fd))
    && (fd in fs'.files && fs'.files[fd].view.Stable? && IsFile(fs', fs'.files[fd].view.node) ==>
          fs'.files[fd].position <= |fs'.ns.data[fs'.files[fd].view.node].bytes|)
    && (fd >= fs'.nextFd ==> Offset(fs, ops, replies, fd) == 0)
  }

  ghost predicate Tracked(fs: Fs, fs': Fs, ops: seq<Op>, replies: seq<Reply>)
    requires |ops| == |replies|
  {
    && (forall r {:trigger FileTracked(fs, fs', ops, replies, r)} :: FileTracked(fs, fs', ops, replies, r))
    && (forall fd {:trigger CursorTracked(fs, fs', ops, replies, fd)} :: CursorTracked(fs, fs', ops, replies, fd))
  }

  lemma StartTracked(fs: Fs)
    requires Invariant(fs)
    ensures Tracked(fs, fs, [], [])
  {
    hide WellFormed, TreeShaped, IdsFresh;
    forall fd ensures CursorTracked(fs, fs, [], [], fd) {
      if fd in fs.files {
        FileIsOk(fs, fd);
      }
    }
  }

  lemma CursorStep(fs: Fs, ops: seq<Op>, replies: seq<Reply>, fs1: Fs, op: Op, fd: FileDescriptor)
    requires Invariant(fs1) && |ops| == |replies| && CursorTracked(fs, fs1, ops, replies, fd)
    ensures CursorTracked(fs, Step(fs1, op).0, ops + [op], replies + [Step(fs1, op).1], fd)
  {
    hide Step, Invariant;
    var (fs2, reply) := Step(fs1, op);
    var ops', replies' := ops + [op], replies + [reply];
    assert ops'[..|ops|] == ops && replies'[..|ops|] == replies;
    if fd in fs1.files {
      DescriptorsInRange(fs1, fd);
    }
    StepCursor(fs1, op, fd);
    StepDescriptors(fs1, op);
    StepKeeps(fs1, op);
    if fd in fs2.files {
      FileIsOk(fs2, fd);
    }
  }

  lemma DescriptorsInRange(fs: Fs, fd: FileDescriptor)
    requires Invariant(fs) && fd in fs.files
    ensures fd < fs.nextFd
  {
  }

  lemma FileReplayed(fs: Fs, ops: seq<Op>, replies: seq<Reply>, fs1: Fs, op: Op, r: NodeRef)
    requires Invariant(fs1) && |ops| == |replies| && FileTracked(fs, fs1, ops, replies, r)
    requires fs1 == Run(fs, ops).0
    requires op.WriteOp? ==> CursorTracked(fs, fs1, ops, replies, op.fd)
    ensures FileTracked(fs, Step(fs1, op).0, ops + [op], replies + [Step(fs1, op).1], r)
  {
    hide Step, Invariant, Overwrite, Run, Offset;
    var (fs2, reply) := Step(fs1, op);
    var ops', replies' := ops + [op], replies + [reply];
    assert ops'[..|ops|] == ops && replies'[..|ops|] == replies;
    StepFile(fs1, op, r);
  }

  /** Every run, of any calls in any order, from any state that keeps the invariant:
      each ramfs file holds the replay of the writes to it, and each open descriptor
      is at its running offset, which lies inside its file. So reads never start
      past the end, writes never leave holes, and calls on other files, openings,
      closings, new directories and mounts do not disturb a file. */
  lemma {:induction false} EveryRunReplays(fs: Fs, ops: seq<Op>)
    requires Invariant(fs)
    ensures var (fs', replies) := Run(fs, ops);
            |replies| <= |ops| && Tracked(fs, fs', ops[..|replies|], replies)
    decreases |ops|
  {
    hide Step, Invariant, Tracked;
    if ops == [] {
      StartTracked(fs);
      assert ops[..0] == [];
    } else {
      var before, last := ops[..|ops| - 1], ops[|ops| - 1];
      assert ops == before + [last];
      EveryRunReplays(fs, before);
      var (fs1, replies) := Run(fs, before);
      if NoPanic(replies) {
        RunSnoc(fs, before, last);
        RunKeeps(fs, before);
        assert before[..|replies|] == before;
        TrackedStep(fs, before, replies, fs1, last);
        assert ops[..|ops|] == ops;
      } else {
        PanicEnds(fs, before, [last]);
        assert ops[..|replies|] == before[..|replies|];
      }
    }
  }

  lemma TrackedStep(fs: Fs, ops: seq<Op>, replies: seq<Reply>, fs1: Fs, op: Op)
    requires Invariant(fs1) && |ops| == |replies| && fs1 == Run(fs, ops).0 && Tracked(fs, fs1, ops, replies)
    ensures Tracked(fs, Step(fs1, op).0, ops + [op], replies + [Step(fs1, op).1])
  {
    hide Step, Invariant, Run, FileTracked, CursorTracked;
    var (fs2, reply) := Step(fs1, op);
    forall r ensures FileTracked(fs, fs2, ops + [op], replies + [reply], r) {
      assert FileTracked(fs, fs1, ops, replies, r);
      if op.WriteOp? {
        assert CursorTracked(fs, fs1, ops, replies, op.fd);
      }
      FileReplayed(fs, ops, replies, fs1, op, r);
    }
    forall fd ensures CursorTracked(fs, fs2, ops + [op], replies + [reply], fd) {
      assert CursorTracked(fs, fs1, ops, replies, fd);
      CursorStep(fs, ops, replies, fs1, op, fd);
    }
  }

  /** In every run, every read that succeeds on a ramfs file delivers the slice, at
      its descriptor's running offset, of the contents replayed up to it. */
  lemma EveryReadSeesReplay(fs: Fs, ops: seq<Op>, i: nat, r: NodeRef)
    requires Invariant(fs) && i < |Run(fs, ops).1| && i < |ops|
    requires ops[i].ReadOp? && OpenAs(Run(fs, ops[..i]).0, ops[i].fd, r, Read) && IsFile(Run(fs, ops[..i]).0, r)
    ensures var replies := Run(fs, ops).1;
            && var bytes := Replay(fs, r, ops[..i], replies[..i]);
              var offset := Offset(fs, ops[..i], replies[..i], ops[i].fd);
              && bytes.Some? && offset <= |bytes.value|
              && replies[i] == GotBytes(Ok(Slice(bytes.value, offset, ops[i].size)))
  {
    hide Invariant, Slice, Replay, Offset, Run;
    RunPrefix(fs, ops, i);
    EveryRunReplays(fs, ops[..i]);
    var (fs1, replies) := Run(fs, ops[..i]);
    assert ops[..i][..i] == ops[..i];
    assert FileTracked(fs, fs1, ops[..i], replies, r);
    assert CursorTracked(fs, fs1, ops[..i], replies, ops[i].fd);
  }

  // ---------------------------------------------------------------------
  // When reads and writes panic
  // ---------------------------------------------------------------------

  /** A read or write panics exactly if its descriptor is open on a directory. */
  lemma IoPanicsExactly(fs: Fs, op: Op)
    requires Invariant(fs) && (op.ReadOp? || op.WriteOp?)
    ensures IsPanic(Step(fs, op).1) <==> op.fd in fs.files && IsDirectory(fs.ns, fs.files[op.fd].view)
  {
    hide Invariant, Splice, Slice, Zeros;
    if op.fd in fs.files {
      FileIsOk(fs, op.fd);
    }
  }

  predicate IsIo(fs: Fs, op: Op) {
    && (op.ReadOp? || op.WriteOp?)
    && (op.fd in fs.files ==> !IsDirectory(fs.ns, fs.files[op.fd].view))
  }

  /** Reads and writes, none of them through a descriptor open on a directory. */
  predicate AllIo(fs: Fs, ops: seq<Op>) {
    forall i :: 0 <= i < |ops| ==> IsIo(fs, ops[i])
  }

  lemma IoStaysIo(fs: Fs, op: Op, other: Op)
    requires Invariant(fs) && IsIo(fs, op) && IsIo(fs, other)
    ensures IsIo(Step(fs, op).0, other)
  {
    hide Splice, Slice, Zeros, Invariant;
    var fs' := Step(fs, op).0;
    if other.fd in fs'.files {
      if other.fd in fs.files {
        DescriptorsInRange(fs, other.fd);
      }
      StepCursor(fs, op, other.fd);
    }
  }

  lemma {:induction false} IoRunsDoNotPanic(fs: Fs, ops: seq<Op>)
    requires Invariant(fs) && AllIo(fs, ops)
    ensures |Run(fs, ops).1| == |ops| && NoPanic(Run(fs, ops).1)
    decreases |ops|
  {
    hide Step, Invariant, IsIo;
    if ops != [] {
      var (fs1, reply) := Step(fs, ops[0]);
      assert !IsPanic(reply) by { IoDoesNotPanic(fs, ops[0]); }
      StepKeeps(fs, ops[0]);
      forall i | 0 <= i < |ops[1..]| ensures IsIo(fs1, ops[1..][i]) {
        IoStaysIo(fs, ops[0], ops[i + 1]);
      }
      IoRunsDoNotPanic(fs1, ops[1..]);
    }
  }

  lemma IoDoesNotPanic(fs: Fs, op: Op)
    requires Invariant(fs) && IsIo(fs, op)
    ensures !IsPanic(Step(fs, op).1)
  {
    hide Step, Invariant;
    IoPanicsExactly(fs, op);
  }
}
