/**
  The vocabulary shared by the file system modules: outcomes of kernel calls,
  file system nodes, and the identifiers that name them.
 */
module FsTypes {

  datatype Option<+T> = None | Some(value: T)

  datatype IoError =
    | OperationNotSupported
    | EntryNotFound
    | AlreadyExists
    | NotADirectory
    | NotAFile
    | InvalidPath
    | InvalidFile
    | InvalidMode
    | FileSystemTypeNotFound
    | NoRootDirectory

  /** What a kernel call comes to: a value, an error code, or a kernel panic
      at a `todo!()` or an `assert!` that callers can reach. */
  datatype Outcome<+T> = Ok(value: T) | Err(error: IoError) | Panic {
    predicate IsFailure() {
      !Ok?
    }

    function PropagateFailure<U>(): (r: Outcome<U>)
      requires !Ok?
    {
      if Err? then Err(error) else Panic
    }

    function Extract(): T
      requires Ok?
    {
      value
    }
  }

  newtype byte = x: int | 0 <= x < 256

  predicate IsAscii(s: string) {
    forall i :: 0 <= i < |s| ==> s[i] as int < 128
  }

  type MountId = nat
  type EntryId = nat
  type FileDescriptor = nat

  /** A node's id together with its mount id: unique within the whole VFS. */
  datatype NodeRef = NodeRef(mount: MountId, id: nat)

  datatype NodeKind = Directory | RegularFile | CharDevice

  datatype FsKind = RamFs | DevFs

  datatype DeviceKind = NullDevice | ZeroDevice

  datatype FileMode = Read | Write | Append {
    predicate IsMutating() {
      !Read?
    }
  }

  /** A node's driver-private data. The devfs root carries none. */
  datatype NodeData =
    | NoData
    | RamDirectory(children: map<string, NodeRef>)
    | RamFile(bytes: seq<byte>)
    | Device(name: string)

  /** A path from the root of the tree, one component per step; [] is the root. */
  type Location = seq<string>

  const DOT := "."
  const DOT_DOT := ".."

  predicate IsDots(name: string) {
    name == DOT || name == DOT_DOT
  }
}
