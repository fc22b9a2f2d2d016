/**
  What path strings mean: which location a string names, and what resolving it
  answers, in terms of the nodes at that location and above it.
 */
module PathLaws {
  import opened FsTypes
  import opened Namespace
  import opened FsSpec
  import PathParser

  // ---------------------------------------------------------------------
  // Spelling
  // ---------------------------------------------------------------------

  /** The absolute path of a location: a slash before every name. */
  function PathTo(l: Location): string {
    if l == [] then "/" else Slashed(l)
  }

  function Slashed(l: Location): string {
    if l == [] then "" else "/" + l[0] + Slashed(l[1..])
  }

  predicate Ascii(s: string) {
    forall i :: 0 <= i < |s| ==> s[i] as int < 128
  }

  /** A location that some accepted path spells. */
  predicate Nameable(l: Location) {
    && (forall i :: 0 <= i < |l| ==> '/' !in l[i] && Ascii(l[i]))
    && l != [""]
    && |PathTo(l)| <= 4096
  }

  lemma {:induction false} SlashedIsJoined(l: Location)
    requires l != []
    ensures Slashed(l) == "/" + PathParser.Join(l)
  {
    if |l| > 1 {
      SlashedIsJoined(l[1..]);
    } else {
      assert l[1..] == [];
    }
  }

  /** The path of a location is how the parser's inverse prints it below the root. */
  lemma PathIsPrinted(l: Location)
    ensures PathParser.Print([PathParser.ROOT_SEGMENT] + l) == PathTo(l)
  {
    var p := [PathParser.ROOT_SEGMENT] + l;
    assert p[1..] == l;
    if l != [] {
      SlashedIsJoined(l);
    }
  }

  lemma {:induction false} SlashedAscii(l: Location)
    ensures Ascii(Slashed(l)) <==> forall i :: 0 <= i < |l| ==> Ascii(l[i])
  {
    if l != [] {
      var rest := Slashed(l[1..]);
      SlashedAscii(l[1..]);
      AsciiAppend("/" + l[0], rest);
      AsciiAppend("/", l[0]);
      assert forall i :: 0 < i < |l| ==> l[i] == l[1..][i - 1];
      assert forall i :: 0 <= i < |l[1..]| ==> l[1..][i] == l[i + 1];
    }
  }

  lemma AsciiAppend(a: string, b: string)
    ensures Ascii(a + b) <==> Ascii(a) && Ascii(b)
  {
    assert forall i :: 0 <= i < |a| ==> (a + b)[i] == a[i];
    assert forall i :: 0 <= i < |b| ==> (a + b)[|a| + i] == b[i];
  }

  lemma PathIsAscii(l: Location)
    ensures Ascii(PathTo(l)) <==> forall i :: 0 <= i < |l| ==> Ascii(l[i])
  {
    SlashedAscii(l);
  }

  // ---------------------------------------------------------------------
  // From strings to locations and back
  // ---------------------------------------------------------------------

  /** The path of a location below a mounted root is read as that location. */
  lemma SegmentsOfPath(ns: Namespace, l: Location)
    requires Nameable(l) && [] in ns.mountAt
    ensures Segments(ns, PathTo(l)) == Ok(l)
  {
    hide Slashed, PathParser.Parse, PathParser.Print;
    var p := [PathParser.ROOT_SEGMENT] + l;
    PathIsPrinted(l);
    PathIsAscii(l);
    assert forall i :: 1 <= i < |p| ==> p[i] == l[i - 1];
    assert p[1..] == l && [PathParser.ROOT_SEGMENT, ""][1..] == [""];
    PathParser.PrintParseRoundTrip(p);
  }

  /** Every accepted path is the path of what it is read as. */
  lemma PathOfSegments(ns: Namespace, path: string)
    requires Segments(ns, path).Ok?
    ensures var l := Segments(ns, path).value;
            Nameable(l) && path == PathTo(l) && [] in ns.mountAt
  {
    hide Slashed, PathTo, PathParser.Print;
    var p, l := PathParser.Parse(path).segments, Segments(ns, path).value;
    PathParser.ParsePrintRoundTrip(path);
    assert p == [PathParser.ROOT_SEGMENT] + l;
    PathIsPrinted(l);
    PathIsAscii(l);
    forall i | 0 <= i < |l| ensures '/' !in l[i] {
      assert l[i] == p[i + 1];
    }
    if l == [""] {
      PathParser.PrintParseRoundTrip(p);
    }
  }

  /** What is wrong with a path, for every string. */
  lemma PathErrors(ns: Namespace, path: string)
    ensures Segments(ns, path).Panic? <==> !Ascii(path) || (0 < |path| <= 4096 && path[0] != '/')
    ensures Segments(ns, path) == Err(InvalidPath) <==> Ascii(path) && (path == "" || |path| > 4096)
    ensures Segments(ns, path) == Err(NoRootDirectory) <==>
              Ascii(path) && 0 < |path| <= 4096 && path[0] == '/' && [] !in ns.mountAt
    ensures !Segments(ns, path).Ok? ==>
              Resolve(ns, path) == Segments(ns, path).PropagateFailure()
              && ResolveParent(ns, path) == Segments(ns, path).PropagateFailure()
    ensures Segments(ns, path).Ok? || Segments(ns, path).Panic?
            || Segments(ns, path) in {Err(InvalidPath), Err(NoRootDirectory)}
  {
    hide PathParser.Split, Walk, ParentWalk;
    if PathParser.Parse(path).Parsed? {
      PathParser.ParsePrintRoundTrip(path);
    }
  }

  // ---------------------------------------------------------------------
  // What resolution answers
  // ---------------------------------------------------------------------

  /** The walk to a path without dots ends at the location it names, if there is a
      node; at a node above it that is no directory, if there is one; or nowhere. */
  lemma ResolveNames(ns: Namespace, l: Location)
    requires WellFormed(ns) && [] in ns.mountAt && Nameable(l) && DotFree(l)
    ensures Resolve(ns, PathTo(l)) ==
            if NodeAt(ns, l).Some? then Ok(Some(l))
            else if Blocked(ns, l) then Err(NotADirectory)
            else Ok(None)
    ensures Resolve(ns, PathParser.Print([PathParser.ROOT_SEGMENT] + l)) == Ok(Some(l)) <==> NodeAt(ns, l).Some?
  {
    hide WellFormed, Nameable, Segments, Walk, Blocked, PathTo, PathParser.Print;
    PathIsPrinted(l);
    SegmentsOfPath(ns, l);
    WalkIsNodeAt(ns, l);
    WalkIsBlocked(ns, l);
  }

  /** Any accepted path, with dots or without, leads to its lexical normal form if all
      that is passed on the way are directories and a node is there; it is refused
      at the first thing passed that is no directory; otherwise it leads nowhere. */
  lemma ResolveDots(ns: Namespace, l: Location)
    requires WellFormed(ns) && [] in ns.mountAt && Nameable(l)
    ensures Resolve(ns, PathTo(l)) ==
            if (forall k :: 0 <= k < |l| ==> DirectoryAt(ns, Reached(l, k))) && NodeAt(ns, Normalise([], l)).Some?
            then Ok(Some(Normalise([], l)))
            else if exists k :: 0 <= k < |l| && Obstacle(ns, Reached(l, k))
                      && forall j :: 0 <= j < k ==> DirectoryAt(ns, Reached(l, j))
            then Err(NotADirectory)
            else Ok(None)
  {
    hide WellFormed, Nameable, Segments, Walk, PathTo, Obstacle, DirectoryAt, Normalise;
    SegmentsOfPath(ns, l);
    WalkWithDots(ns, l);
  }

  /** Creating through a path with dots panics exactly where the parent walk meets them. */
  lemma ParentDots(ns: Namespace, l: Location)
    requires WellFormed(ns) && [] in ns.mountAt && Nameable(l) && l != []
    ensures ResolveParent(ns, PathTo(l)).Panic? <==>
              exists k :: 0 <= k < |l| && (l[k] == "." || l[k] == "..") && DotFree(l[..k])
                && forall j :: 0 <= j <= k ==> DirectoryAt(ns, l[..j])
  {
    hide Nameable, Segments, ParentWalk, PathTo, DotFree;
    SegmentsOfPath(ns, l);
    assert IsDirectory(ns, Stable(RootNode(ns.mountAt[[]])));
    ParentWalkDots(ns, l);
  }

  /** The normal form drops "." and lets ".." cancel the name before it. */
  lemma DotsByName(at: Location, name: string, rest: Location)
    ensures Normalise(at, [name] + rest) ==
            if name == "." then Normalise(at, rest)
            else if name == ".." then Normalise(if at == [] then [] else at[..|at| - 1], rest)
            else Normalise(at + [name], rest)
  {
    assert ([name] + rest)[0] == name && ([name] + rest)[1..] == rest;
  }

  /** The parent walk of a path without dots. */
  lemma ParentNames(ns: Namespace, l: Location)
    requires WellFormed(ns) && [] in ns.mountAt && Nameable(l) && DotFree(l) && l != []
    ensures ResolveParent(ns, PathTo(l)) ==
            if Blocked(ns, l) then Err(NotADirectory)
            else if NodeAt(ns, Parent(l)).Some? then Ok((Parent(l), Last(l)))
            else Err(EntryNotFound)
  {
    hide WellFormed, Nameable, Segments, ParentWalk, Blocked, PathTo;
    SegmentsOfPath(ns, l);
    ParentWalkIsBlocked(ns, l);
  }

  /** The root has no name to create it by. */
  lemma ParentOfRoot(ns: Namespace)
    requires [] in ns.mountAt
    ensures ResolveParent(ns, "/") == Err(InvalidPath)
  {
    SegmentsOfPath(ns, []);
  }

  /** A path that does not resolve but whose parent does names a free place. */
  lemma TargetIsNamed(ns: Namespace, path: string)
    requires WellFormed(ns) && Resolve(ns, path) == Ok(None) && ResolveParent(ns, path).Ok?
    ensures var l := ResolveParent(ns, path).value.0 + [ResolveParent(ns, path).value.1];
            && path == PathTo(l) && Nameable(l) && DotFree(l) && [] in ns.mountAt
            && NodeAt(ns, l).None? && DirectoryAt(ns, Parent(l)) && !Blocked(ns, l)
  {
    hide Segments, Nameable, PathTo, Blocked;
    PathOfSegments(ns, path);
    var l := Segments(ns, path).value;
    assert IsDirectory(ns, Stable(RootNode(ns.mountAt[[]])));
    CreationNeverClobbers(ns, l);
    ParentWalkIsWalk(ns, [], l);
    WalkIsBlocked(ns, l);
    var (dir, name) := ResolveParent(ns, path).value;
    assert Parent(dir + [name]) == dir;
  }
}
