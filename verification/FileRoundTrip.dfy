/** A new file, written in any chunks and read in any chunks, reads back as written. */
module FileRoundTrip {
  import opened FsTypes
  import opened Namespace
  import opened FsSpec
  import opened FsInvariants
  import opened FsRuns
  import opened PathLaws
  import opened CallLaws
  import PathParser

  function Flatten(chunks: seq<seq<byte>>): seq<byte> {
    if chunks == [] then [] else chunks[0] + Flatten(chunks[1..])
  }

  function Sum(sizes: seq<nat>): nat {
    if sizes == [] then 0 else sizes[0] + Sum(sizes[1..])
  }

  function WriteOps(fd: FileDescriptor, chunks: seq<seq<byte>>): seq<Op> {
    if chunks == [] then [] else [WriteOp(fd, chunks[0])] + WriteOps(fd, chunks[1..])
  }

  function ReadOps(fd: FileDescriptor, sizes: seq<nat>): seq<Op> {
    if sizes == [] then [] else [ReadOp(fd, sizes[0])] + ReadOps(fd, sizes[1..])
  }

  /** The bytes delivered by the replies of a run, one after the other. */
  function Delivered(replies: seq<Reply>): seq<byte> {
    if replies == [] then []
    else
      (if replies[0].GotBytes? && replies[0].bytes.Ok? then replies[0].bytes.value else [])
      + Delivered(replies[1..])
  }

  lemma {:induction false} DeliveredAppend(a: seq<Reply>, b: seq<Reply>)
    ensures Delivered(a + b) == Delivered(a) + Delivered(b)
  {
    if a == [] {
      assert a + b == b;
      assert [] + Delivered(b) == Delivered(b);
    } else {
      assert (a + b)[0] == a[0] && (a + b)[1..] == a[1..] + b;
      DeliveredAppend(a[1..], b);
    }
  }

  lemma NoPanicAppend(a: seq<Reply>, b: seq<Reply>)
    requires NoPanic(a) && NoPanic(b)
    ensures NoPanic(a + b)
  {
  }

  /** A descriptor about to append to a ramfs file. */
  predicate AtEnd(fs: Fs, fd: FileDescriptor, r: NodeRef) {
    && OpenAs(fs, fd, r, Write)
    && r in fs.ns.data && fs.ns.data[r].RamFile?
    && fs.files[fd].position == |fs.ns.data[r].bytes|
  }

  function WithBytes(fs: Fs, fd: FileDescriptor, r: NodeRef, bytes: seq<byte>): Fs
    requires fd in fs.files
  {
    fs.(ns := fs.ns.(data := fs.ns.data[r := RamFile(bytes)]),
        files := fs.files[fd := fs.files[fd].(position := |bytes|)])
  }

  lemma AppendOne(fs: Fs, fd: FileDescriptor, r: NodeRef, chunk: seq<byte>)
    requires AtEnd(fs, fd, r)
    ensures Step(fs, WriteOp(fd, chunk)) == (WithBytes(fs, fd, r, fs.ns.data[r].bytes + chunk), Written(Ok(|chunk|)))
  {
    var bytes := fs.ns.data[r].bytes;
    SpliceInside(bytes, |bytes|, chunk);
    assert bytes[..|bytes|] + chunk + [] == bytes + chunk;
  }

  lemma WithBytesAgain(fs: Fs, fd: FileDescriptor, r: NodeRef, bytes: seq<byte>, more: seq<byte>)
    requires AtEnd(fs, fd, r)
    ensures WithBytes(fs, fd, r, fs.ns.data[r].bytes) == fs
    ensures var fs1 := WithBytes(fs, fd, r, bytes);
            && AtEnd(fs1, fd, r) && fs1.ns.data[r].bytes == bytes
            && WithBytes(fs1, fd, r, more) == WithBytes(fs, fd, r, more)
  {
  }

  lemma {:induction false} WriteChunks(fs: Fs, fd: FileDescriptor, r: NodeRef, chunks: seq<seq<byte>>)
    requires AtEnd(fs, fd, r)
    ensures var (fs', replies) := Run(fs, WriteOps(fd, chunks));
            && fs' == WithBytes(fs, fd, r, fs.ns.data[r].bytes + Flatten(chunks))
            && |replies| == |chunks| && NoPanic(replies) && Delivered(replies) == []
    decreases |chunks|
  {
    var bytes := fs.ns.data[r].bytes;
    assert fd in fs.files;
    hide Step, WithBytes, AtEnd, NoPanic, Delivered, Flatten;
    FlattenStep(bytes, chunks);
    if chunks == [] {
      NoReplies();
      WithBytesAgain(fs, fd, r, bytes, bytes);
    } else {
      AppendOne(fs, fd, r, chunks[0]);
      var fs1 := WithBytes(fs, fd, r, bytes + chunks[0]);
      var all := bytes + Flatten(chunks);
      WithBytesAgain(fs, fd, r, bytes + chunks[0], all);
      WriteChunks(fs1, fd, r, chunks[1..]);
      OneStep(fs, WriteOp(fd, chunks[0]), WriteOps(fd, chunks[1..]));
      SilentReply(Written(Ok(|chunks[0]|)), Run(fs1, WriteOps(fd, chunks[1..])).1);
    }
  }

  lemma FlattenStep(bytes: seq<byte>, chunks: seq<seq<byte>>)
    ensures bytes + Flatten(chunks) ==
            if chunks == [] then bytes else (bytes + chunks[0]) + Flatten(chunks[1..])
  {
  }

  lemma NoReplies()
    ensures NoPanic([]) && Delivered([]) == []
  {
  }

  lemma SilentReply(reply: Reply, rest: seq<Reply>)
    requires !reply.GotBytes? && !IsPanic(reply) && NoPanic(rest)
    ensures NoPanic([reply] + rest) && Delivered([reply] + rest) == Delivered(rest)
  {
    assert ([reply] + rest)[1..] == rest;
    assert [] + Delivered(rest) == Delivered(rest);
  }

  lemma SpokenReply(got: seq<byte>, rest: seq<Reply>)
    requires NoPanic(rest)
    ensures var reply := GotBytes(Ok(got));
            NoPanic([reply] + rest) && Delivered([reply] + rest) == got + Delivered(rest)
  {
    assert ([GotBytes(Ok(got))] + rest)[1..] == rest;
  }

  lemma SliceSplits(bytes: seq<byte>, offset: nat, a: nat, b: nat)
    requires offset <= |bytes|
    ensures var got := Slice(bytes, offset, a);
            offset + |got| <= |bytes| && got + Slice(bytes, offset + |got|, b) == Slice(bytes, offset, a + b)
  {
  }

  lemma SliceNothing(bytes: seq<byte>, offset: nat)
    ensures Slice(bytes, offset, 0) == []
  {
  }

  lemma SliceEverything(bytes: seq<byte>, size: nat)
    requires size >= |bytes|
    ensures Slice(bytes, 0, size) == bytes
  {
  }

  lemma ReadOne(fs: Fs, fd: FileDescriptor, r: NodeRef, size: nat)
    requires OpenAs(fs, fd, r, Read) && r in fs.ns.data && fs.ns.data[r].RamFile?
    ensures var got := Slice(fs.ns.data[r].bytes, fs.files[fd].position, size);
            Step(fs, ReadOp(fd, size)) == (Advance(fs, fd, |got|), GotBytes(Ok(got)))
  {
  }

  lemma {:induction false} ReadChunks(fs: Fs, fd: FileDescriptor, r: NodeRef, sizes: seq<nat>)
    requires OpenAs(fs, fd, r, Read) && r in fs.ns.data && fs.ns.data[r].RamFile?
    requires fs.files[fd].position <= |fs.ns.data[r].bytes|
    ensures var replies := Run(fs, ReadOps(fd, sizes)).1;
            && |replies| == |sizes| && NoPanic(replies)
            && Delivered(replies) == Slice(fs.ns.data[r].bytes, fs.files[fd].position, Sum(sizes))
    decreases |sizes|
  {
    hide Step, Slice, NoPanic, Delivered;
    if sizes == [] {
      NoReplies();
      SliceNothing(fs.ns.data[r].bytes, fs.files[fd].position);
    } else {
      ReadOne(fs, fd, r, sizes[0]);
      var (fs1, reply) := Step(fs, ReadOp(fd, sizes[0]));
      SliceSplits(fs.ns.data[r].bytes, fs.files[fd].position, sizes[0], Sum(sizes[1..]));
      ReadChunks(fs1, fd, r, sizes[1..]);
      OneStep(fs, ReadOp(fd, sizes[0]), ReadOps(fd, sizes[1..]));
      SpokenReply(reply.bytes.value, Run(fs1, ReadOps(fd, sizes[1..])).1);
    }
  }

  // ---------------------------------------------------------------------
  // Open, write, close, open, read
  // ---------------------------------------------------------------------

  /** A path that can be created: it does not resolve, and its parent is a ramfs directory. */
  predicate Creatable(fs: Fs, path: string) {
    && Resolve(fs.ns, path) == Ok(None)
    && ResolveParent(fs.ns, path).Ok?
    && CreatorAt(fs, ResolveParent(fs.ns, path).value.0).Some?
  }

  function Place(fs: Fs, path: string): Location
    requires Creatable(fs, path)
  {
    ResolveParent(fs.ns, path).value.0 + [ResolveParent(fs.ns, path).value.1]
  }

  function NewFile(fs: Fs, path: string): NodeRef
    requires Creatable(fs, path)
  {
    NewNode(fs, CreatorAt(fs, ResolveParent(fs.ns, path).value.0).value)
  }

  /** A path is creatable exactly if it names a location, without dots, that holds
      nothing in a ramfs directory; its place is that location. */
  lemma CreatableIsNamed(fs: Fs, path: string)
    requires Invariant(fs)
    ensures Creatable(fs, path) <==>
              exists l :: Named(fs, l) && l != [] && path == PathTo(l) && NodeAt(fs.ns, l).None? && RamDirectoryAt(fs, Parent(l))
    ensures Creatable(fs, path) ==>
              var l := Place(fs, path);
              path == PathTo(l) && path == PathParser.Print([PathParser.ROOT_SEGMENT] + l)
  {
    hide NodeAt, WellFormed, TreeShaped, IdsFresh, FilesOk, Resolve, ResolveParent, Nameable, PathTo, Blocked, DirectoryAt,
         RamDirectoryAt, CreatorAt, PathParser.Print;
    if Creatable(fs, path) {
      var l := Place(fs, path);
      TargetIsNamed(fs.ns, path);
      PathIsPrinted(l);
      CreatorsAreRamDirectories(fs, ResolveParent(fs.ns, path).value.0);
      assert Parent(l) == ResolveParent(fs.ns, path).value.0;
      assert Named(fs, l) && l != [];
    }
    forall l | Named(fs, l) && l != [] && path == PathTo(l) && NodeAt(fs.ns, l).None? && RamDirectoryAt(fs, Parent(l))
      ensures Creatable(fs, path)
    {
      FreeInRamDirectory(fs, l);
    }
  }

  lemma FreeInRamDirectory(fs: Fs, l: Location)
    requires Named(fs, l) && l != [] && NodeAt(fs.ns, l).None? && RamDirectoryAt(fs, Parent(l))
    ensures Creatable(fs, PathTo(l))
  {
    hide WellFormed, TreeShaped, IdsFresh, FilesOk, Resolve, ResolveParent, Nameable, PathTo, Blocked, CreatorAt;
    assert Parent(l) + [Last(l)] == l;
    NothingInTheWay(fs, Parent(l), Last(l));
    ResolveNames(fs.ns, l);
    ParentNames(fs.ns, l);
    CreatorsAreRamDirectories(fs, Parent(l));
  }

  /** Opening a creatable path for writing makes an empty file at its place. */
  lemma OpenCreates(fs: Fs, path: string)
    requires Invariant(fs) && Creatable(fs, path)
    ensures var (fs', reply) := Step(fs, OpenOp(path, Write, None));
            var r := NewFile(fs, path);
            && reply == Opened(Ok(fs.nextFd))
            && Invariant(fs')
            && AtEnd(fs', fs.nextFd, r) && fs'.ns.data[r] == RamFile([])
            && NodeAt(fs'.ns, Place(fs, path)) == Some(Stable(r))
            && fs'.ns.mountAt == fs.ns.mountAt
            && fs'.nextFd == fs.nextFd + 1
  {
    hide NodeAt, WellFormed, TreeShaped, Resolve, ResolveParent;
    var (dir, name) := ResolveParent(fs.ns, path).value;
    var d := CreatorAt(fs, dir).value;
    CreationTarget(fs, path);
    CreateKeepsInvariant(fs, dir, d, name, RamFile([]));
    OpenKeeps(fs, path, Write, None);
  }

  /** A dot-free absolute path resolves to its own segments once a node is there. */
  lemma ResolvesTo(fs: Fs, ns': Namespace, path: string)
    requires Invariant(fs) && WellFormed(ns') && Creatable(fs, path)
    requires ns'.mountAt == fs.ns.mountAt && NodeAt(ns', Place(fs, path)).Some?
    ensures Resolve(ns', path) == Ok(Some(Place(fs, path)))
  {
    var segments := Segments(fs.ns, path).value;
    assert IsDirectory(fs.ns, Stable(RootNode(fs.ns.mountAt[[]])));
    assert DirectoryAt(fs.ns, []);
    CreationNeverClobbers(fs.ns, segments);
    ParentWalkIsWalk(fs.ns, [], segments);
    assert IsDirectory(ns', Stable(RootNode(ns'.mountAt[[]])));
    WalkIsNodeAt(ns', segments);
  }

  /** Opening a place that holds a ramfs file for reading starts at its beginning. */
  lemma OpenReads(fs: Fs, path: string, at: Location, r: NodeRef)
    requires Resolve(fs.ns, path) == Ok(Some(at)) && NodeAt(fs.ns, at) == Some(Stable(r))
    ensures Step(fs, OpenOp(path, Read, None)) ==
            (fs.(files := fs.files[fs.nextFd := OpenFile(Stable(r), Read, 0)], nextFd := fs.nextFd + 1), Opened(Ok(fs.nextFd)))
  {
    hide Resolve, NodeAt;
  }

  lemma CloseOne(fs: Fs, fd: FileDescriptor)
    requires fd in fs.files
    ensures Step(fs, CloseOp(fd, None)) == (fs.(files := fs.files - {fd}), Closed(Ok(())))
  {
  }

  /** Reopening the path for reading after the writes finds the bytes written. */
  lemma Reopen(fs: Fs, fs2: Fs, path: string, fd: FileDescriptor, r: NodeRef)
    requires Invariant(fs) && Creatable(fs, path)
    requires Invariant(fs2) && fs2.ns.mountAt == fs.ns.mountAt && fd in fs2.files && fs2.nextFd == fd + 1
    requires NodeAt(fs2.ns, Place(fs, path)) == Some(Stable(r))
    ensures var (fs3, closed) := Step(fs2, CloseOp(fd, None));
            var (fs4, again) := Step(fs3, OpenOp(path, Read, None));
            && closed == Closed(Ok(()))
            && again == Opened(Ok(fd + 1))
            && OpenAs(fs4, fd + 1, r, Read) && fs4.files[fd + 1].position == 0
            && fs4.ns == fs2.ns
  {
    hide Step, NodeAt, Resolve, ResolveParent, Creatable, Place, WellFormed, TreeShaped, IdsFresh, FilesOk;
    CloseOne(fs2, fd);
    var fs3 := Step(fs2, CloseOp(fd, None)).0;
    ResolvesTo(fs, fs3.ns, path);
    OpenReads(fs3, path, Place(fs, path), r);
  }

  /** The calls: create, write the chunks, close, reopen, read in pieces. */
  function Session(fd: FileDescriptor, path: string, chunks: seq<seq<byte>>, sizes: seq<nat>): seq<Op> {
    [OpenOp(path, Write, None)] + WriteOps(fd, chunks)
    + ([CloseOp(fd, None)] + ([OpenOp(path, Read, None)] + ReadOps(fd + 1, sizes)))
  }

  /** Whatever the chunks written and the sizes read, what is read is a prefix of
      what was written, as long as the reads allow, and all of it if they suffice. */
  lemma WriteThenReadBack(fs: Fs, path: string, chunks: seq<seq<byte>>, sizes: seq<nat>)
    requires Invariant(fs) && Creatable(fs, path)
    ensures var replies := Run(fs, Session(fs.nextFd, path, chunks, sizes)).1;
            && |replies| == |chunks| + |sizes| + 3 && NoPanic(replies)
            && Delivered(replies) == Slice(Flatten(chunks), 0, Sum(sizes))
            && (Sum(sizes) >= |Flatten(chunks)| ==> Delivered(replies) == Flatten(chunks))
  {
    hide Step, Run, Creatable, NewFile, Place, Invariant, NoPanic, Delivered, Slice, Flatten;
    var w, bytes := fs.nextFd, Flatten(chunks);
    OpenCreates(fs, path);
    var (fs1, reply1) := Step(fs, OpenOp(path, Write, None));
    var r := NewFile(fs, path);
    WriteChunks(fs1, w, r, chunks);
    assert [] + bytes == bytes;
    var fs2 := WithBytes(fs1, w, r, bytes);
    RunKeeps(fs1, WriteOps(w, chunks));
    WriteKeepsNodes(fs1.ns, r, bytes, Place(fs, path));
    Reopen(fs, fs2, path, w, r);
    var (fs3, reply3) := Step(fs2, CloseOp(w, None));
    var (fs4, reply4) := Step(fs3, OpenOp(path, Read, None));
    ReadChunks(fs4, w + 1, r, sizes);
    SessionReplies(fs, fs1, fs2, path, chunks, sizes);
    var written, got := Run(fs1, WriteOps(w, chunks)).1, Run(fs4, ReadOps(w + 1, sizes)).1;
    DeliversNothing(reply1);
    DeliversNothing(reply3);
    DeliversNothing(reply4);
    Assemble([reply1], written, [reply3], [reply4], got);
    if Sum(sizes) >= |bytes| {
      SliceEverything(bytes, Sum(sizes));
    }
    assert [] + ([] + ([] + ([] + Delivered(got)))) == Delivered(got);
  }

  lemma DeliversNothing(reply: Reply)
    requires !reply.GotBytes? && !IsPanic(reply)
    ensures Delivered([reply]) == [] && NoPanic([reply])
  {
  }

  /** The run of a session, call by call. */
  lemma SessionReplies(fs: Fs, fs1: Fs, fs2: Fs, path: string, chunks: seq<seq<byte>>, sizes: seq<nat>)
    requires fs1 == Step(fs, OpenOp(path, Write, None)).0 && !IsPanic(Step(fs, OpenOp(path, Write, None)).1)
    requires fs2 == Run(fs1, WriteOps(fs.nextFd, chunks)).0 && NoPanic(Run(fs1, WriteOps(fs.nextFd, chunks)).1)
    requires !IsPanic(Step(fs2, CloseOp(fs.nextFd, None)).1)
    requires !IsPanic(Step(Step(fs2, CloseOp(fs.nextFd, None)).0, OpenOp(path, Read, None)).1)
    ensures var (fs3, reply3) := Step(fs2, CloseOp(fs.nextFd, None));
            var (fs4, reply4) := Step(fs3, OpenOp(path, Read, None));
            Run(fs, Session(fs.nextFd, path, chunks, sizes)).1 ==
            [Step(fs, OpenOp(path, Write, None)).1]
            + (Run(fs1, WriteOps(fs.nextFd, chunks)).1
               + ([reply3] + ([reply4] + Run(fs4, ReadOps(fs.nextFd + 1, sizes)).1)))
  {
    hide Step, Run, NoPanic, WriteOps, ReadOps;
    var w := fs.nextFd;
    var openW, openR, close := OpenOp(path, Write, None), OpenOp(path, Read, None), CloseOp(w, None);
    var fs3 := Step(fs2, close).0;
    var readOps := ReadOps(w + 1, sizes);
    var tail := [close] + ([openR] + readOps);
    OneStep(fs3, openR, readOps);
    OneStep(fs2, close, [openR] + readOps);
    RunAppend(fs1, WriteOps(w, chunks), tail);
    OneStep(fs, openW, WriteOps(w, chunks) + tail);
    assert Session(w, path, chunks, sizes) == [openW] + (WriteOps(w, chunks) + tail);
  }

  lemma OneStep(fs: Fs, op: Op, rest: seq<Op>)
    requires !IsPanic(Step(fs, op).1)
    ensures Run(fs, [op] + rest) == (Run(Step(fs, op).0, rest).0, [Step(fs, op).1] + Run(Step(fs, op).0, rest).1)
  {
    hide Step;
    assert ([op] + rest)[0] == op && ([op] + rest)[1..] == rest;
  }

  lemma Assemble(a: seq<Reply>, b: seq<Reply>, c: seq<Reply>, d: seq<Reply>, e: seq<Reply>)
    requires NoPanic(a) && NoPanic(b) && NoPanic(c) && NoPanic(d) && NoPanic(e)
    ensures var all := a + (b + (c + (d + e)));
            && NoPanic(all)
            && Delivered(all) == Delivered(a) + (Delivered(b) + (Delivered(c) + (Delivered(d) + Delivered(e))))
  {
    hide NoPanic, Delivered;
    DeliveredAppend(a, b + (c + (d + e)));
    DeliveredAppend(b, c + (d + e));
    DeliveredAppend(c, d + e);
    DeliveredAppend(d, e);
    NoPanicAppend(d, e);
    NoPanicAppend(c, d + e);
    NoPanicAppend(b, c + (d + e));
    NoPanicAppend(a, b + (c + (d + e)));
  }
}
