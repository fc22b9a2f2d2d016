/**
  The cacheless reference for path resolution. A namespace is what is mounted
  where plus what the drivers store; `NodeAt` says which node, if any, lives at
  a location. Neither mentions directory entries, their ids or the cache.
 */
module Namespace {
  import opened FsTypes

  /** `data` holds the private data of every node whose identity is stable:
      ramfs nodes and devfs roots. Device nodes get a new id at every driver
      lookup, so they are identified by mount and device name instead. */
  datatype Namespace = Namespace(
    mountAt: map<Location, MountId>,
    data: map<NodeRef, NodeData>,
    devices: map<string, DeviceKind>)

  datatype View = Stable(node: NodeRef) | DeviceNode(mount: MountId, name: string)

  function RootNode(m: MountId): NodeRef {
    NodeRef(m, 0)
  }

  predicate HasChild(ns: Namespace, dir: NodeRef, name: string) {
    dir in ns.data && ns.data[dir].RamDirectory? && name in ns.data[dir].children
  }

  function Child(ns: Namespace, dir: NodeRef, name: string): NodeRef
    requires HasChild(ns, dir, name)
  {
    ns.data[dir].children[name]
  }

  predicate HasDevice(ns: Namespace, dir: NodeRef, name: string) {
    dir in ns.data && ns.data[dir].NoData? && name in ns.devices
  }

  /** One driver lookup. */
  function DriverChild(ns: Namespace, dir: View, name: string): Option<View> {
    if !dir.Stable? then None
    else if HasChild(ns, dir.node, name) then Some(Stable(Child(ns, dir.node, name)))
    else if HasDevice(ns, dir.node, name) then Some(DeviceNode(dir.node.mount, name))
    else None
  }

  predicate IsDirectory(ns: Namespace, v: View) {
    v.Stable? && v.node in ns.data && (ns.data[v.node].RamDirectory? || ns.data[v.node].NoData?)
  }

  function Parent(loc: Location): Location
    requires loc != []
  {
    loc[..|loc| - 1]
  }

  function Last(loc: Location): string
    requires loc != []
  {
    loc[|loc| - 1]
  }

  /** The node at a location: a mounted root hides whatever the driver below has. */
  function NodeAt(ns: Namespace, loc: Location): Option<View>
    decreases |loc|
  {
    if loc in ns.mountAt then
      Some(Stable(RootNode(ns.mountAt[loc])))
    else if loc == [] then
      None
    else
      var dir := NodeAt(ns, Parent(loc));
      if dir.None? then None else DriverChild(ns, dir.value, Last(loc))
  }

  predicate DirectoryAt(ns: Namespace, loc: Location) {
    var v := NodeAt(ns, loc);
    v.Some? && IsDirectory(ns, v.value)
  }

  /** A mount hangs below a directory and hides no driver child. */
  predicate MountHangs(ns: Namespace, loc: Location)
    requires loc != []
  {
    && DirectoryAt(ns, Parent(loc))
    && DriverChild(ns, NodeAt(ns, Parent(loc)).value, Last(loc)) == None
  }

  ghost predicate WellFormed(ns: Namespace) {
    && (forall l {:trigger MountHangs(ns, l)} :: l in ns.mountAt && l != [] ==> MountHangs(ns, l))
    && (forall l :: l in ns.mountAt ==> IsDirectory(ns, Stable(RootNode(ns.mountAt[l]))))
    && (forall d, n {:trigger HasChild(ns, d, n)} :: HasChild(ns, d, n) ==> Child(ns, d, n) in ns.data)
  }

  // ---------------------------------------------------------------------
  // The walk
  // ---------------------------------------------------------------------

  datatype WalkResult = Found(loc: Location) | Missing | NotDirectory

  /** Following one segment from a location. */
  function WalkStep(ns: Namespace, loc: Location, segment: string): WalkResult {
    if !DirectoryAt(ns, loc) then NotDirectory
    else if segment == DOT then Found(loc)
    else if segment == DOT_DOT then Found(if loc == [] then [] else Parent(loc))
    else if NodeAt(ns, loc + [segment]).None? then Missing
    else Found(loc + [segment])
  }

  /** Resolving the segments of a path, starting from a location. */
  function Walk(ns: Namespace, loc: Location, segments: seq<string>): WalkResult
    decreases |segments|
  {
    if segments == [] then Found(loc)
    else
      var step := WalkStep(ns, loc, segments[0]);
      if step.Found? then Walk(ns, step.loc, segments[1..]) else step
  }

  /** Resolving all segments but the last, which is handed back as a new name.
      Dots are not implemented by this walk and panic when reached. */
  function ParentWalk(ns: Namespace, loc: Location, segments: seq<string>): Outcome<(Location, string)>
    requires segments != []
    decreases |segments|
  {
    if IsDots(segments[0]) then
      Panic
    else if |segments| == 1 then
      Ok((loc, segments[0]))
    else
      var next := loc + [segments[0]];
      if NodeAt(ns, next).None? then Err(EntryNotFound)
      else if !DirectoryAt(ns, next) then Err(NotADirectory)
      else ParentWalk(ns, next, segments[1..])
  }

  // ---------------------------------------------------------------------
  // Dots: resolution agrees with lexical normalisation
  // ---------------------------------------------------------------------

  /** The textual normal form of a path; ".." at the root is ignored. */
  function Normalise(loc: Location, segments: seq<string>): Location
    decreases |segments|
  {
    if segments == [] then
      loc
    else if segments[0] == DOT then
      Normalise(loc, segments[1..])
    else if segments[0] == DOT_DOT then
      Normalise(if loc == [] then [] else Parent(loc), segments[1..])
    else
      Normalise(loc + [segments[0]], segments[1..])
  }

  predicate DotFree(loc: Location) {
    forall i :: 0 <= i < |loc| ==> !IsDots(loc[i])
  }

  /** Everything above an existing location is a directory. */
  lemma {:induction false} AncestorsAreDirectories(ns: Namespace, loc: Location, k: nat)
    requires WellFormed(ns) && NodeAt(ns, loc).Some? && k < |loc|
    ensures DirectoryAt(ns, loc[..k])
    decreases |loc|
  {
    var up := Parent(loc);
    assert DirectoryAt(ns, up) by {
      if loc in ns.mountAt {
        assert MountHangs(ns, loc);
      }
    }
    if k < |loc| - 1 {
      AncestorsAreDirectories(ns, up, k);
      assert up[..k] == loc[..k];
    } else {
      assert up == loc[..k];
    }
  }

  /** Walking down the tail of an existing dot-free location arrives there. */
  lemma {:induction false} WalkDown(ns: Namespace, loc: Location, k: nat)
    requires WellFormed(ns) && NodeAt(ns, loc).Some? && DotFree(loc) && k <= |loc|
    ensures Walk(ns, loc[..k], loc[k..]) == Found(loc)
    decreases |loc| - k
  {
    if k == |loc| {
      assert loc[..k] == loc;
    } else {
      AncestorsAreDirectories(ns, loc, k);
      assert loc[..k] + [loc[k]] == loc[..k + 1];
      assert loc[k..][1..] == loc[k + 1..];
      if k + 1 < |loc| {
        AncestorsAreDirectories(ns, loc, k + 1);
      } else {
        assert loc[..k + 1] == loc;
      }
      WalkDown(ns, loc, k + 1);
    }
  }

  lemma {:induction false} WalkFoundInvariant(ns: Namespace, loc: Location, segments: seq<string>)
    requires WellFormed(ns) && NodeAt(ns, loc).Some? && DotFree(loc)
    requires Walk(ns, loc, segments).Found?
    ensures var l := Walk(ns, loc, segments).loc;
            l == Normalise(loc, segments) && NodeAt(ns, l).Some? && DotFree(l)
    decreases |segments|
  {
    if segments != [] {
      var s := segments[0];
      if s == DOT {
        WalkFoundInvariant(ns, loc, segments[1..]);
      } else if s == DOT_DOT {
        if loc != [] {
          AncestorsAreDirectories(ns, loc, |loc| - 1);
          WalkFoundInvariant(ns, Parent(loc), segments[1..]);
        } else {
          WalkFoundInvariant(ns, [], segments[1..]);
        }
      } else {
        WalkFoundInvariant(ns, loc + [s], segments[1..]);
      }
    }
  }

  /** A path that resolves at all resolves to its lexical normal form, and that
      normal form, walked on its own, resolves to the same place. */
  lemma DotsAreLexical(ns: Namespace, segments: seq<string>)
    requires WellFormed(ns) && NodeAt(ns, []).Some?
    requires Walk(ns, [], segments).Found?
    ensures Walk(ns, [], segments) == Found(Normalise([], segments))
    ensures Walk(ns, [], Normalise([], segments)) == Found(Normalise([], segments))
    ensures NodeAt(ns, Normalise([], segments)).Some?
  {
    hide WellFormed;
    WalkFoundInvariant(ns, [], segments);
    var l := Normalise([], segments);
    WalkDown(ns, l, 0);
    assert l[..0] == [] && l[0..] == l;
  }

  /** On a dot-free path the walk finds exactly the locations that hold a node. */
  lemma {:induction false} WalkIsNodeAt(ns: Namespace, segments: seq<string>)
    requires WellFormed(ns) && NodeAt(ns, []).Some? && DotFree(segments)
    ensures Walk(ns, [], segments).Found? <==> NodeAt(ns, segments).Some?
    ensures Walk(ns, [], segments).Found? ==> Walk(ns, [], segments).loc == segments
  {
    if Walk(ns, [], segments).Found? {
      WalkFoundInvariant(ns, [], segments);
      NormaliseDotFree([], segments);
      assert [] + segments == segments;
    }
    if NodeAt(ns, segments).Some? {
      WalkDown(ns, segments, 0);
      assert segments[..0] == [] && segments[0..] == segments;
    }
  }

  lemma {:induction false} NormaliseDotFree(loc: Location, segments: seq<string>)
    requires DotFree(segments)
    ensures Normalise(loc, segments) == loc + segments
    decreases |segments|
  {
    if segments == [] {
      assert loc + segments == loc;
    } else {
      assert forall i :: 0 <= i < |segments[1..]| ==> segments[1..][i] == segments[i + 1];
      NormaliseDotFree(loc + [segments[0]], segments[1..]);
      assert loc + [segments[0]] + segments[1..] == loc + segments;
    }
  }

  // ---------------------------------------------------------------------
  // The parent walk: same parent, and creation never clobbers
  // ---------------------------------------------------------------------

  /** The parent walk succeeds exactly on dot-free paths whose parent resolves
      to a directory, and then hands back that parent and the last segment. */
  lemma {:induction false} ParentWalkIsWalk(ns: Namespace, loc: Location, segments: seq<string>)
    requires segments != [] && DirectoryAt(ns, loc)
    ensures ParentWalk(ns, loc, segments).Ok? <==>
              && DotFree(segments)
              && Walk(ns, loc, Parent(segments)).Found?
              && DirectoryAt(ns, Walk(ns, loc, Parent(segments)).loc)
    ensures ParentWalk(ns, loc, segments).Ok? ==>
              && ParentWalk(ns, loc, segments).value == (loc + Parent(segments), Last(segments))
              && Walk(ns, loc, Parent(segments)) == Found(loc + Parent(segments))
    decreases |segments|
  {
    var s := segments[0];
    if IsDots(s) {
      assert !DotFree(segments);
    } else if |segments| == 1 {
      assert Parent(segments) == [];
      assert loc + [] == loc;
    } else {
      var next, rest := loc + [s], segments[1..];
      var up := Parent(segments);
      assert up[0] == s && up[1..] == Parent(rest);
      assert DotFree(segments) <==> DotFree(rest) by {
        assert forall i :: 0 <= i < |rest| ==> rest[i] == segments[i + 1];
        assert forall i :: 0 < i < |segments| ==> segments[i] == rest[i - 1];
      }
      if NodeAt(ns, next).Some? {
        if DirectoryAt(ns, next) {
          ParentWalkIsWalk(ns, next, rest);
          assert next + Parent(rest) == loc + up;
        } else if |rest| > 1 {
          assert Walk(ns, next, Parent(rest)).NotDirectory?;
        } else {
          assert Walk(ns, next, Parent(rest)) == Found(next);
        }
      }
    }
  }

  /** When a path does not resolve but its parent walk succeeds, what is missing
      is exactly the last segment: no mount and no driver child has its name. */
  lemma CreationNeverClobbers(ns: Namespace, segments: seq<string>)
    requires WellFormed(ns) && DirectoryAt(ns, []) && segments != []
    requires Walk(ns, [], segments) == Missing && ParentWalk(ns, [], segments).Ok?
    ensures var (dir, name) := ParentWalk(ns, [], segments).value;
            && segments == dir + [name]
            && DirectoryAt(ns, dir)
            && NodeAt(ns, dir + [name]) == None
            && dir + [name] !in ns.mountAt
            && DriverChild(ns, NodeAt(ns, dir).value, name) == None
  {
    ParentWalkIsWalk(ns, [], segments);
    WalkIsNodeAt(ns, segments);
    var (dir, name) := ParentWalk(ns, [], segments).value;
    assert [] + Parent(segments) == Parent(segments);
    assert segments == dir + [name];
    assert Parent(dir + [name]) == dir;
  }

  // ---------------------------------------------------------------------
  // What stops a walk
  // ---------------------------------------------------------------------

  /** A node that no path leads through. */
  predicate Obstacle(ns: Namespace, loc: Location) {
    NodeAt(ns, loc).Some? && !DirectoryAt(ns, loc)
  }

  /** Something above a location is not a directory. */
  ghost predicate Blocked(ns: Namespace, loc: Location) {
    exists k :: 0 <= k < |loc| && Obstacle(ns, loc[..k])
  }

  lemma {:induction false} WalkFrom(ns: Namespace, loc: Location, i: nat)
    requires WellFormed(ns) && DotFree(loc) && i <= |loc| && NodeAt(ns, loc[..i]).Some?
    ensures Walk(ns, loc[..i], loc[i..]).NotDirectory? <==> exists k :: i <= k < |loc| && Obstacle(ns, loc[..k])
    decreases |loc| - i
  {
    if i < |loc| {
      assert loc[i..][0] == loc[i] && loc[i..][1..] == loc[i + 1..];
      assert loc[..i] + [loc[i]] == loc[..i + 1];
      if DirectoryAt(ns, loc[..i]) {
        if NodeAt(ns, loc[..i + 1]).Some? {
          WalkFrom(ns, loc, i + 1);
        } else {
          NothingBelow(ns, loc, i + 1);
        }
      } else {
        assert Obstacle(ns, loc[..i]);
      }
    }
  }

  /** Below a location that holds nothing there is nothing. */
  lemma NothingBelow(ns: Namespace, loc: Location, i: nat)
    requires WellFormed(ns) && i <= |loc| && NodeAt(ns, loc[..i]).None?
    ensures forall k :: i <= k <= |loc| ==> NodeAt(ns, loc[..k]).None?
  {
    forall k | i < k <= |loc| ensures NodeAt(ns, loc[..k]).None? {
      assert loc[..k][..i] == loc[..i];
      if NodeAt(ns, loc[..k]).Some? {
        AncestorsAreDirectories(ns, loc[..k], i);
      }
    }
  }

  /** A dot-free walk is stopped exactly by a node above its end that is no directory. */
  lemma WalkIsBlocked(ns: Namespace, loc: Location)
    requires WellFormed(ns) && NodeAt(ns, []).Some? && DotFree(loc)
    ensures Walk(ns, [], loc).NotDirectory? <==> Blocked(ns, loc)
    ensures NodeAt(ns, loc).Some? ==> !Blocked(ns, loc)
  {
    assert loc[..0] == [] && loc[0..] == loc;
    WalkFrom(ns, loc, 0);
    WalkIsNodeAt(ns, loc);
  }

  /** Where a walk is after the first `k` segments, if it gets that far. */
  function Reached(segments: seq<string>, k: nat): Location
    requires k <= |segments|
  {
    Normalise([], segments[..k])
  }

  lemma {:induction false} NormaliseSnoc(at: Location, a: seq<string>, name: string)
    ensures Normalise(at, a + [name]) == Normalise(Normalise(at, a), [name])
    decreases |a|
  {
    var s := a + [name];
    if a == [] {
      assert s == [name];
    } else {
      assert s[0] == a[0] && s[1..] == a[1..] + [name];
      var next := if a[0] == DOT then at else if a[0] == DOT_DOT then (if at == [] then [] else Parent(at)) else at + [a[0]];
      NormaliseSnoc(next, a[1..], name);
    }
  }

  lemma ReachedNext(segments: seq<string>, k: nat)
    requires k < |segments|
    ensures Reached(segments, k + 1) == Normalise(Reached(segments, k), [segments[k]])
  {
    assert segments[..k + 1] == segments[..k] + [segments[k]];
    NormaliseSnoc([], segments[..k], segments[k]);
  }

  lemma {:induction false} WalkWithDotsFrom(ns: Namespace, segments: seq<string>, i: nat)
    requires WellFormed(ns) && i <= |segments| && NodeAt(ns, Reached(segments, i)).Some?
    ensures var w := Walk(ns, Reached(segments, i), segments[i..]);
            && (w.NotDirectory? <==>
                  exists k :: i <= k < |segments| && Obstacle(ns, Reached(segments, k))
                    && forall j :: i <= j < k ==> DirectoryAt(ns, Reached(segments, j)))
            && (w.Found? <==>
                  && (forall k :: i <= k < |segments| ==> DirectoryAt(ns, Reached(segments, k)))
                  && NodeAt(ns, Reached(segments, |segments|)).Some?)
            && (w.Found? ==> w.loc == Reached(segments, |segments|))
    decreases |segments| - i
  {
    hide WellFormed, NodeAt;
    if i < |segments| {
      var here, name := Reached(segments, i), segments[i];
      assert segments[i..][0] == name && segments[i..][1..] == segments[i + 1..];
      ReachedNext(segments, i);
      assert [name][1..] == [];
      if DirectoryAt(ns, here) {
        StepIsReached(ns, here, name);
        if NodeAt(ns, Reached(segments, i + 1)).Some? {
          WalkWithDotsFrom(ns, segments, i + 1);
        } else {
          assert WalkStep(ns, here, name).Missing?;
          StuckAt(ns, segments, i);
        }
      } else {
        assert Obstacle(ns, here);
      }
    }
  }

  /** From a directory a step finds what its normal form says, if it is there. */
  lemma StepIsReached(ns: Namespace, here: Location, name: string)
    requires WellFormed(ns) && DirectoryAt(ns, here)
    ensures var next := Normalise(here, [name]);
            WalkStep(ns, here, name) == if NodeAt(ns, next).Some? then Found(next) else Missing
  {
    assert [name][1..] == [];
    if name == DOT_DOT && here != [] {
      AncestorsAreDirectories(ns, here, |here| - 1);
    }
  }

  lemma StuckAt(ns: Namespace, segments: seq<string>, i: nat)
    requires i < |segments| && NodeAt(ns, Reached(segments, i + 1)).None?
    ensures !(&& (forall k :: i <= k < |segments| ==> DirectoryAt(ns, Reached(segments, k)))
              && NodeAt(ns, Reached(segments, |segments|)).Some?)
    ensures !(exists k :: i <= k < |segments| && Obstacle(ns, Reached(segments, k))
                && forall j :: i <= j < k ==> DirectoryAt(ns, Reached(segments, j)))
            || Obstacle(ns, Reached(segments, i))
  {
    assert !DirectoryAt(ns, Reached(segments, i + 1)) && !Obstacle(ns, Reached(segments, i + 1));
  }

  /** What becomes of any walk, dots included: it goes on as long as it is in a
      directory, and "." and ".." need one just as names do. */
  lemma WalkWithDots(ns: Namespace, segments: seq<string>)
    requires WellFormed(ns) && NodeAt(ns, []).Some?
    ensures Walk(ns, [], segments).NotDirectory? <==>
              exists k :: 0 <= k < |segments| && Obstacle(ns, Reached(segments, k))
                && forall j :: 0 <= j < k ==> DirectoryAt(ns, Reached(segments, j))
    ensures Walk(ns, [], segments).Found? <==>
              && (forall k :: 0 <= k < |segments| ==> DirectoryAt(ns, Reached(segments, k)))
              && NodeAt(ns, Normalise([], segments)).Some?
    ensures Walk(ns, [], segments).Found? ==> Walk(ns, [], segments).loc == Normalise([], segments)
  {
    hide WellFormed, NodeAt, Walk;
    assert segments[..0] == [] && segments[0..] == segments && segments[..|segments|] == segments;
    WalkWithDotsFrom(ns, segments, 0);
  }

  lemma {:induction false} ParentWalkDotsFrom(ns: Namespace, loc: Location, i: nat)
    requires i < |loc| && DotFree(loc[..i]) && forall j :: 0 <= j <= i ==> DirectoryAt(ns, loc[..j])
    ensures ParentWalk(ns, loc[..i], loc[i..]).Panic? <==>
              exists k :: i <= k < |loc| && IsDots(loc[k]) && DotFree(loc[..k])
                && forall j :: 0 <= j <= k ==> DirectoryAt(ns, loc[..j])
    decreases |loc| - i
  {
    hide NodeAt;
    assert loc[i..][0] == loc[i] && loc[i..][1..] == loc[i + 1..];
    assert loc[..i] + [loc[i]] == loc[..i + 1];
    if !IsDots(loc[i]) {
      assert DotFree(loc[..i + 1]);
      if i < |loc| - 1 && DirectoryAt(ns, loc[..i + 1]) {
        ParentWalkDotsFrom(ns, loc, i + 1);
      }
    }
  }

  /** The parent walk panics exactly at dots that it reaches. */
  lemma ParentWalkDots(ns: Namespace, loc: Location)
    requires DirectoryAt(ns, []) && loc != []
    ensures ParentWalk(ns, [], loc).Panic? <==>
              exists k :: 0 <= k < |loc| && (loc[k] == "." || loc[k] == "..") && DotFree(loc[..k])
                && forall j :: 0 <= j <= k ==> DirectoryAt(ns, loc[..j])
  {
    assert loc[..0] == [] && loc[0..] == loc;
    ParentWalkDotsFrom(ns, loc, 0);
  }

  lemma {:induction false} ParentWalkFrom(ns: Namespace, loc: Location, i: nat)
    requires WellFormed(ns) && DotFree(loc) && i < |loc| && DirectoryAt(ns, loc[..i])
    ensures ParentWalk(ns, loc[..i], loc[i..]) ==
            if exists k :: i <= k < |loc| && Obstacle(ns, loc[..k]) then Err(NotADirectory)
            else if NodeAt(ns, Parent(loc)).Some? then Ok((Parent(loc), Last(loc)))
            else Err(EntryNotFound)
    decreases |loc| - i
  {
    assert loc[i..][0] == loc[i] && loc[i..][1..] == loc[i + 1..];
    assert loc[..i] + [loc[i]] == loc[..i + 1];
    assert Parent(loc) == loc[..|loc| - 1];
    if i < |loc| - 1 {
      if NodeAt(ns, loc[..i + 1]).None? {
        NothingBelow(ns, loc, i + 1);
      } else if DirectoryAt(ns, loc[..i + 1]) {
        ParentWalkFrom(ns, loc, i + 1);
      } else {
        assert Obstacle(ns, loc[..i + 1]);
      }
    }
  }

  /** The parent walk of a dot-free path fails at a node that is no directory, or
      for want of a parent, or else hands back the parent and the last name. */
  lemma ParentWalkIsBlocked(ns: Namespace, loc: Location)
    requires WellFormed(ns) && [] in ns.mountAt && DotFree(loc) && loc != []
    ensures ParentWalk(ns, [], loc) ==
            if Blocked(ns, loc) then Err(NotADirectory)
            else if NodeAt(ns, Parent(loc)).Some? then Ok((Parent(loc), Last(loc)))
            else Err(EntryNotFound)
  {
    assert loc[..0] == [] && loc[0..] == loc;
    assert IsDirectory(ns, Stable(RootNode(ns.mountAt[[]])));
    ParentWalkFrom(ns, loc, 0);
  }

  // ---------------------------------------------------------------------
  // Growth: creating nodes and mounts moves nothing that already exists
  // ---------------------------------------------------------------------

  /** A driver creating node `r`, with private data `data`, in directory `dir`. */
  function AddChild(ns: Namespace, dir: NodeRef, name: string, r: NodeRef, data: NodeData): Namespace
    requires dir in ns.data && ns.data[dir].RamDirectory?
  {
    ns.(data := ns.data[dir := RamDirectory(ns.data[dir].children[name := r])][r := data])
  }

  predicate DataGrows(d: NodeData, d': NodeData) {
    match d
    case RamDirectory(c) =>
      d'.RamDirectory? && forall n :: n in c ==> n in d'.children && d'.children[n] == c[n]
    case RamFile(_) => d'.RamFile?
    case _ => d' == d
  }

  ghost predicate Grows(ns: Namespace, ns': Namespace) {
    && ns'.devices == ns.devices
    && (forall r :: r in ns.data ==> r in ns'.data && DataGrows(ns.data[r], ns'.data[r]))
    && (forall l :: l in ns.mountAt ==> l in ns'.mountAt && ns'.mountAt[l] == ns.mountAt[l])
    && (forall l :: l in ns'.mountAt && l !in ns.mountAt ==> NodeAt(ns, l).None?)
  }

  lemma {:induction false} GrowthKeepsNodes(ns: Namespace, ns': Namespace, loc: Location)
    requires Grows(ns, ns') && NodeAt(ns, loc).Some?
    ensures NodeAt(ns', loc) == NodeAt(ns, loc)
    ensures DirectoryAt(ns, loc) ==> DirectoryAt(ns', loc)
    decreases |loc|
  {
    if loc !in ns.mountAt {
      GrowthKeepsNodes(ns, ns', Parent(loc));
    }
  }

  // ---------------------------------------------------------------------
  // Tree shape: no node is in two places
  // ---------------------------------------------------------------------

  /** Every stable node has at most one parent and name, or one mount. */
  ghost predicate TreeShaped(ns: Namespace) {
    && (forall d, n {:trigger HasChild(ns, d, n)} :: HasChild(ns, d, n) ==>
          Child(ns, d, n).mount == d.mount && Child(ns, d, n).id > 0)
    && (forall d1, n1, d2, n2 {:trigger HasChild(ns, d1, n1), HasChild(ns, d2, n2)} ::
          HasChild(ns, d1, n1) && HasChild(ns, d2, n2) && Child(ns, d1, n1) == Child(ns, d2, n2)
          ==> d1 == d2 && n1 == n2)
    && (forall r :: r in ns.data && ns.data[r].NoData? ==> r.id == 0)
    && (forall l1, l2 :: l1 in ns.mountAt && l2 in ns.mountAt && ns.mountAt[l1] == ns.mountAt[l2] ==> l1 == l2)
  }

  lemma {:induction false} OnePlacePerNode(ns: Namespace, l1: Location, l2: Location)
    requires TreeShaped(ns)
    requires NodeAt(ns, l1).Some? && NodeAt(ns, l1) == NodeAt(ns, l2)
    ensures l1 == l2
    decreases |l1|
  {
    if l1 in ns.mountAt || l2 in ns.mountAt {
    } else {
      var v1, v2 := NodeAt(ns, Parent(l1)).value, NodeAt(ns, Parent(l2)).value;
      assert v1 == v2 && Last(l1) == Last(l2);
      OnePlacePerNode(ns, Parent(l1), Parent(l2));
      assert l1 == Parent(l1) + [Last(l1)] && l2 == Parent(l2) + [Last(l2)];
    }
  }

  ghost predicate CanAddChild(ns: Namespace, at: Location, dir: NodeRef, r: NodeRef, data: NodeData) {
    && at != []
    && NodeAt(ns, Parent(at)) == Some(Stable(dir))
    && NodeAt(ns, at).None?
    && dir in ns.data && ns.data[dir].RamDirectory?
    && r !in ns.data && r.mount == dir.mount && r.id > 0
    && (data == RamFile([]) || data == RamDirectory(map[]))
  }

  lemma ChildrenAfterAdd(ns: Namespace, at: Location, dir: NodeRef, r: NodeRef, data: NodeData, d: NodeRef, n: string)
    requires CanAddChild(ns, at, dir, r, data)
    ensures var ns' := AddChild(ns, dir, Last(at), r, data);
            && (HasChild(ns', d, n) <==> HasChild(ns, d, n) || (d == dir && n == Last(at)))
            && (HasChild(ns', d, n) ==>
                  Child(ns', d, n) == if d == dir && n == Last(at) then r else Child(ns, d, n))
            && (HasDevice(ns', d, n) <==> HasDevice(ns, d, n))
            && !HasChild(ns, dir, Last(at))
  {
  }

  lemma AddChildGrows(ns: Namespace, at: Location, dir: NodeRef, r: NodeRef, data: NodeData)
    requires CanAddChild(ns, at, dir, r, data)
    ensures Grows(ns, AddChild(ns, dir, Last(at), r, data))
  {
    ChildrenAfterAdd(ns, at, dir, r, data, dir, Last(at));
  }

  /** Creation adds the new name and moves, hides or reveals nothing else. */
  lemma {:induction false} AddChildAddsExactlyOne(ns: Namespace, at: Location, dir: NodeRef, r: NodeRef,
                                                  data: NodeData, l: Location)
    requires TreeShaped(ns) && CanAddChild(ns, at, dir, r, data)
    ensures NodeAt(AddChild(ns, dir, Last(at), r, data), l)
            == if l == at then Some(Stable(r)) else NodeAt(ns, l)
    decreases |l|
  {
    var ns' := AddChild(ns, dir, Last(at), r, data);
    if l !in ns.mountAt && l != [] {
      var up := Parent(l);
      AddChildAddsExactlyOne(ns, at, dir, r, data, up);
      assert l == up + [Last(l)] && at == Parent(at) + [Last(at)];
      var v := NodeAt(ns', up);
      if v.Some? && v.value.Stable? {
        ChildrenAfterAdd(ns, at, dir, r, data, v.value.node, Last(l));
        if v.value.node == dir {
          OnePlacePerNode(ns, up, Parent(at));
        }
      }
    }
  }

  lemma AddChildKeepsTree(ns: Namespace, at: Location, dir: NodeRef, r: NodeRef, data: NodeData)
    requires WellFormed(ns) && TreeShaped(ns) && CanAddChild(ns, at, dir, r, data)
    ensures WellFormed(AddChild(ns, dir, Last(at), r, data))
    ensures TreeShaped(AddChild(ns, dir, Last(at), r, data))
  {
    hide NodeAt;
    var ns' := AddChild(ns, dir, Last(at), r, data);
    forall d, n
      ensures HasChild(ns', d, n) ==>
                (d == dir && n == Last(at) && Child(ns', d, n) == r)
                || (HasChild(ns, d, n) && Child(ns', d, n) == Child(ns, d, n) && Child(ns, d, n) in ns.data)
    {
      ChildrenAfterAdd(ns, at, dir, r, data, d, n);
    }
    AddChildKeepsMounts(ns, at, dir, r, data);
  }

  lemma AddChildKeepsMounts(ns: Namespace, at: Location, dir: NodeRef, r: NodeRef, data: NodeData)
    requires WellFormed(ns) && TreeShaped(ns) && CanAddChild(ns, at, dir, r, data)
    ensures var ns' := AddChild(ns, dir, Last(at), r, data);
            forall l {:trigger MountHangs(ns', l)} :: l in ns'.mountAt && l != [] ==> MountHangs(ns', l)
  {
    var ns' := AddChild(ns, dir, Last(at), r, data);
    AddChildGrows(ns, at, dir, r, data);
    forall l | l in ns'.mountAt && l != []
      ensures MountHangs(ns', l)
    {
      assert MountHangs(ns, l);
      var v := NodeAt(ns, Parent(l)).value;
      GrowthKeepsNodes(ns, ns', Parent(l));
      ChildrenAfterAdd(ns, at, dir, r, data, v.node, Last(l));
      if v.node == dir {
        OnePlacePerNode(ns, Parent(l), Parent(at));
        assert l == Parent(l) + [Last(l)] && at == Parent(at) + [Last(at)];
      }
    }
  }

  /** Mounting a file system with id `m` and the given root data. */
  function MountRoot(ns: Namespace, at: Location, m: MountId, data: NodeData): Namespace {
    ns.(mountAt := ns.mountAt[at := m], data := ns.data[RootNode(m) := data])
  }

  ghost predicate CanMount(ns: Namespace, at: Location, m: MountId, data: NodeData) {
    && NodeAt(ns, at).None?
    && (at != [] ==> DirectoryAt(ns, Parent(at)))
    && (forall r :: r in ns.data ==> r.mount != m)
    && (forall l :: l in ns.mountAt ==> ns.mountAt[l] != m)
    && (data == NoData || data == RamDirectory(map[]))
  }

  lemma ChildrenAfterMount(ns: Namespace, at: Location, m: MountId, data: NodeData, d: NodeRef, n: string)
    requires CanMount(ns, at, m, data)
    ensures var ns' := MountRoot(ns, at, m, data);
            && (HasChild(ns', d, n) <==> HasChild(ns, d, n))
            && (HasChild(ns, d, n) ==> Child(ns', d, n) == Child(ns, d, n))
            && (d.mount != m ==> (HasDevice(ns', d, n) <==> HasDevice(ns, d, n)))
  {
    assert RootNode(m) !in ns.data;
  }

  lemma MountGrows(ns: Namespace, at: Location, m: MountId, data: NodeData)
    requires CanMount(ns, at, m, data)
    ensures Grows(ns, MountRoot(ns, at, m, data))
  {
    assert RootNode(m) !in ns.data;
  }

  /** A mount puts its root at its location, with the devices below it if it is a
      devfs, and nothing else; outside that subtree nothing moves. */
  lemma {:induction false} MountAddsExactlyItsTree(ns: Namespace, at: Location, m: MountId, data: NodeData, l: Location)
    requires WellFormed(ns) && CanMount(ns, at, m, data)
    ensures NodeAt(MountRoot(ns, at, m, data), l) ==
            if l == at then Some(Stable(RootNode(m)))
            else if at < l then
              if data == NoData && Parent(l) == at && Last(l) in ns.devices then Some(DeviceNode(m, Last(l))) else None
            else NodeAt(ns, l)
    decreases |l|
  {
    var ns' := MountRoot(ns, at, m, data);
    assert at < l ==> l[..|at|] == at;
    if l in ns.mountAt {
      forall k | 0 <= k < |l| ensures DirectoryAt(ns, l[..k]) {
        AncestorsAreDirectories(ns, l, k);
      }
    }
    if l !in ns'.mountAt && l != [] {
      var up := Parent(l);
      MountAddsExactlyItsTree(ns, at, m, data, up);
      assert at <= up <==> at < l;
      if !(at <= l) {
        var v := NodeAt(ns, up);
        if v.Some? && v.value.Stable? {
          ChildrenAfterMount(ns, at, m, data, v.value.node, Last(l));
          NodesAreStored(ns, up);
        }
      }
    }
  }

  lemma NodesAreStored(ns: Namespace, l: Location)
    requires WellFormed(ns) && NodeAt(ns, l).Some? && NodeAt(ns, l).value.Stable?
    ensures NodeAt(ns, l).value.node in ns.data
  {
  }

  lemma MountKeepsTree(ns: Namespace, at: Location, m: MountId, data: NodeData)
    requires WellFormed(ns) && TreeShaped(ns) && CanMount(ns, at, m, data)
    ensures WellFormed(MountRoot(ns, at, m, data))
    ensures TreeShaped(MountRoot(ns, at, m, data))
  {
    hide NodeAt;
    var ns' := MountRoot(ns, at, m, data);
    forall d, n
      ensures HasChild(ns', d, n) <==> HasChild(ns, d, n)
      ensures HasChild(ns', d, n) ==> Child(ns', d, n) == Child(ns, d, n) && Child(ns, d, n) in ns.data
    {
      ChildrenAfterMount(ns, at, m, data, d, n);
    }
    MountKeepsMounts(ns, at, m, data);
  }

  lemma MountKeepsMounts(ns: Namespace, at: Location, m: MountId, data: NodeData)
    requires WellFormed(ns) && TreeShaped(ns) && CanMount(ns, at, m, data)
    ensures var ns' := MountRoot(ns, at, m, data);
            forall l {:trigger MountHangs(ns', l)} :: l in ns'.mountAt && l != [] ==> MountHangs(ns', l)
  {
    var ns' := MountRoot(ns, at, m, data);
    MountGrows(ns, at, m, data);
    forall l | l in ns'.mountAt && l != []
      ensures MountHangs(ns', l)
    {
      if l in ns.mountAt {
        assert MountHangs(ns, l);
      }
      var v := NodeAt(ns, Parent(l)).value;
      GrowthKeepsNodes(ns, ns', Parent(l));
      ChildrenAfterMount(ns, at, m, data, v.node, Last(l));
    }
  }
}
