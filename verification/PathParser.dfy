/** Parsing path strings into segments (kernel/src/fs/path.rs). */
module PathParser {
  import opened FsTypes

  const MAX_PATH_LENGTH := 4096
  const ROOT_SEGMENT := "/"

  datatype ParseResult =
    | Parsed(segments: seq<string>)
    | Empty
    | MaxLengthExceeded
    | NonAscii  // the `todo!("parse non-ascii paths")` panic

  /** The pieces between slashes, empty ones included; never an empty list. */
  function Split(s: string): (r: seq<string>)
    ensures |r| > 0
    ensures forall i :: 0 <= i < |r| ==> '/' !in r[i]
  {
    if s == "" then [""]
    else
      var rest := Split(s[1..]);
      if s[0] == '/' then [""] + rest else [[s[0]] + rest[0]] + rest[1..]
  }

  function Join(segments: seq<string>): string
    requires segments != []
  {
    if |segments| == 1 then segments[0] else segments[0] + "/" + Join(segments[1..])
  }

  function Parse(s: string): (r: ParseResult)
    ensures r.Parsed? ==> r.segments != []
  {
    if !IsAscii(s) then NonAscii
    else if s == "" then Empty
    else if |s| > MAX_PATH_LENGTH then MaxLengthExceeded
    else if s[0] != '/' then Parsed(Split(s))
    else if |s| == 1 then Parsed([ROOT_SEGMENT])
    else Parsed([ROOT_SEGMENT] + Split(s[1..]))
  }

  predicate IsAbsolute(segments: seq<string>)
    requires segments != []
  {
    segments[0] == ROOT_SEGMENT
  }

  /** The inverse of parsing. */
  function Print(segments: seq<string>): string
    requires segments != []
  {
    if !IsAbsolute(segments) then Join(segments)
    else if |segments| == 1 then "/"
    else "/" + Join(segments[1..])
  }

  lemma {:induction false} JoinSplit(s: string)
    ensures Join(Split(s)) == s
  {
    if s != "" {
      JoinSplit(s[1..]);
      var rest := Split(s[1..]);
      if s[0] == '/' {
        assert ([""] + rest)[1..] == rest;
        assert s == "/" + s[1..];
      } else {
        assert ([[s[0]] + rest[0]] + rest[1..])[1..] == rest[1..];
        assert s == [s[0]] + s[1..];
        if |rest| > 1 {
          assert [s[0]] + (rest[0] + "/" + Join(rest[1..])) == ([s[0]] + rest[0]) + "/" + Join(rest[1..]);
        }
      }
    }
  }

  lemma {:induction false} SplitPiece(piece: string)
    requires '/' !in piece
    ensures Split(piece) == [piece]
  {
    if piece != "" {
      SplitPiece(piece[1..]);
      assert [piece[0]] + piece[1..] == piece;
    }
  }

  lemma {:induction false} SplitCons(piece: string, rest: string)
    requires '/' !in piece
    ensures Split(piece + "/" + rest) == [piece] + Split(rest)
  {
    var s := piece + "/" + rest;
    if piece == "" {
      assert s[1..] == rest;
    } else {
      assert s[1..] == piece[1..] + "/" + rest;
      SplitCons(piece[1..], rest);
      assert [piece[0]] + piece[1..] == piece;
      assert ([piece[1..]] + Split(rest))[1..] == Split(rest);
    }
  }

  lemma {:induction false} SplitJoin(segments: seq<string>)
    requires segments != [] && forall i :: 0 <= i < |segments| ==> '/' !in segments[i]
    ensures Split(Join(segments)) == segments
  {
    if |segments| == 1 {
      SplitPiece(segments[0]);
    } else {
      SplitJoin(segments[1..]);
      SplitCons(segments[0], Join(segments[1..]));
    }
  }

  /** How the spelling of slash-free segments starts. */
  lemma JoinStart(p: seq<string>)
    requires p != [] && forall i :: 0 <= i < |p| ==> '/' !in p[i]
    ensures Join(p) == "" <==> p == [""]
    ensures Join(p) != "" ==> (Join(p)[0] == '/' <==> p[0] == "")
  {
    if p[0] != "" {
      assert p[0][0] in p[0];
      assert Join(p)[0] == p[0][0];
    }
  }

  /** Printing an accepted path gives back its string, so parsing loses nothing;
      the root segment appears exactly for strings that start with a slash, and
      every other segment is slash-free. */
  lemma ParsePrintRoundTrip(s: string)
    requires Parse(s).Parsed?
    ensures var p := Parse(s).segments;
            && p != []
            && Print(p) == s
            && (IsAbsolute(p) <==> s[0] == '/')
            && forall i :: (if IsAbsolute(p) then 1 else 0) <= i < |p| ==> '/' !in p[i]
  {
    if s[0] != '/' {
      JoinSplit(s);
      assert '/' !in Split(s)[0];
      assert ROOT_SEGMENT[0] == '/';
    } else if |s| > 1 {
      JoinSplit(s[1..]);
      assert ([ROOT_SEGMENT] + Split(s[1..]))[1..] == Split(s[1..]);
      assert s == "/" + s[1..];
    }
  }

  /** A slash-free segment list, optionally below a root, is parsed back from
      its spelling unless no accepted string spells it: a relative list cannot
      start with an empty segment, nor can a root be followed by just one. */
  lemma PrintParseRoundTrip(p: seq<string>)
    requires p != [] && IsAscii(Print(p)) && |Print(p)| <= MAX_PATH_LENGTH
    requires forall i :: (if IsAbsolute(p) then 1 else 0) <= i < |p| ==> '/' !in p[i]
    ensures Parse(Print(p)) == Parsed(p) <==> p[0] != "" && p != [ROOT_SEGMENT, ""]
  {
    hide Split, Join;
    if !IsAbsolute(p) {
      SplitJoin(p);
      JoinStart(p);
    } else if |p| > 1 {
      SplitJoin(p[1..]);
      JoinStart(p[1..]);
      var s := Print(p);
      assert s[1..] == Join(p[1..]);
      assert p == [p[0]] + p[1..];
      assert |p| == 2 ==> p[1..] == [p[1]];
    }
  }

  /** The parser itself: strip a leading slash, then push the pieces one by one. */
  method FromStr(s: string) returns (r: ParseResult)
    ensures r == Parse(s)
  {
    if !IsAscii(s) {
      return NonAscii;
    }
    if s == "" {
      return Empty;
    }
    if |s| > MAX_PATH_LENGTH {
      return MaxLengthExceeded;
    }
    var segments: seq<string> := [];
    var rest := s;
    if s[0] == '/' {
      segments := segments + [ROOT_SEGMENT];
      rest := s[1..];
    }
    if rest != "" {
      var pieces := Pieces(rest);
      segments := segments + pieces;
    }
    r := Parsed(segments);
  }

  lemma PieceEnds(s: string, start: nat, i: nat)
    requires start <= i < |s| && '/' !in s[start..i] && s[i] == '/'
    ensures Split(s[start..]) == [s[start..i]] + Split(s[i + 1..])
  {
    hide Split;
    assert s[start..] == s[start..i] + "/" + s[i + 1..];
    SplitCons(s[start..i], s[i + 1..]);
  }

  lemma Regroup(a: seq<string>, b: seq<string>, c: seq<string>)
    ensures a + (b + c) == (a + b) + c
  {
  }

  method Pieces(s: string) returns (pieces: seq<string>)
    ensures pieces == Split(s)
  {
    hide Split;
    pieces := [];
    var start, i := 0, 0;
    assert s[0..] == s && [] + Split(s) == Split(s);
    while i < |s|
      invariant 0 <= start <= i <= |s|
      invariant '/' !in s[start..i]
      invariant pieces + Split(s[start..]) == Split(s)
    {
      if s[i] == '/' {
        PieceEnds(s, start, i);
        Regroup(pieces, [s[start..i]], Split(s[i + 1..]));
        pieces := pieces + [s[start..i]];
        start := i + 1;
      } else {
        assert s[start..i + 1] == s[start..i] + [s[i]];
      }
      i := i + 1;
    }
    assert s[start..] == s[start..i];
    SplitPiece(s[start..]);
    pieces := pieces + [s[start..]];
  }
}
