/** The boot-time frame allocator (kernel/src/memory.rs). */
module Frames {
  import opened FsTypes

  const FRAME_SIZE := 4096

  /** A region of the bootloader's memory map, as a range of frame numbers. */
  datatype Region = Region(startFrame: nat, endFrame: nat, usable: bool) {
    function StartAddress(): nat {
      startFrame * FRAME_SIZE
    }

    function EndAddress(): nat {
      endFrame * FRAME_SIZE
    }
  }

  type MemoryMap = seq<Region>

  /** The frame that contains an address, by its start address. */
  function ContainingFrame(address: nat): nat {
    address - address % FRAME_SIZE
  }

  /** The frames met by stepping through an address range. */
  function Stepped(from: nat, to: nat): seq<nat>
    decreases if from < to then to - from else 0
  {
    if from >= to then [] else [ContainingFrame(from)] + Stepped(from + FRAME_SIZE, to)
  }

  function FramesOf(r: Region): seq<nat> {
    if r.usable then Stepped(r.StartAddress(), r.EndAddress()) else []
  }

  function UsableFrames(m: MemoryMap): seq<nat> {
    if m == [] then [] else FramesOf(m[0]) + UsableFrames(m[1..])
  }

  predicate InRegion(r: Region, frame: nat) {
    r.usable && r.startFrame * 4096 <= frame < r.endFrame * 4096
  }

  /** A frame lies in a usable region. */
  predicate Usable(m: MemoryMap, frame: nat) {
    frame % 4096 == 0 && exists i :: 0 <= i < |m| && InRegion(m[i], frame)
  }

  predicate Disjoint(m: MemoryMap) {
    forall i, j :: 0 <= i < j < |m| && m[i].usable && m[j].usable ==>
      m[i].endFrame <= m[j].startFrame || m[j].endFrame <= m[i].startFrame
  }

  class BootInfoFrameAllocator {
    const memoryMap: MemoryMap
    var next: nat

    constructor (memoryMap: MemoryMap)
      ensures this.memoryMap == memoryMap && next == 0
    {
      this.memoryMap := memoryMap;
      next := 0;
    }

    /** Walks the usable frames up to the next one not handed out. */
    method AllocateFrame() returns (r: Option<nat>)
      modifies this`next
      ensures next == old(next) + 1
      ensures r == At(UsableFrames(memoryMap), old(next))
    {
      r := Nth(next);
      next := next + 1;
    }

    method Nth(n: nat) returns (r: Option<nat>)
      ensures r == At(UsableFrames(memoryMap), n)
    {
      hide FramesOf, UsableFrames;
      var left, i := n, 0;
      assert memoryMap[0..] == memoryMap;
      while i < |memoryMap|
        invariant 0 <= i <= |memoryMap|
        invariant At(UsableFrames(memoryMap), n) == At(UsableFrames(memoryMap[i..]), left)
      {
        SkipRegion(memoryMap, i, left);
        r, left := NthInRegion(memoryMap[i], left);
        if r.Some? {
          return;
        }
        i := i + 1;
      }
      SkipRegion(memoryMap, i, left);
      r := None;
    }
  }

  function At(frames: seq<nat>, n: nat): Option<nat> {
    if n < |frames| then Some(frames[n]) else None
  }

  lemma SkipRegion(m: MemoryMap, i: nat, n: nat)
    requires i <= |m|
    ensures At(UsableFrames(m[i..]), n) ==
            if i == |m| then None
            else if n < |FramesOf(m[i])| then Some(FramesOf(m[i])[n])
            else At(UsableFrames(m[i + 1..]), n - |FramesOf(m[i])|)
  {
    hide FramesOf;
    if i < |m| {
      assert m[i..][0] == m[i] && m[i..][1..] == m[i + 1..];
    }
  }

  /** Steps through one region; what is left of `n` counts on in the next. */
  method NthInRegion(region: Region, n: nat) returns (r: Option<nat>, left: nat)
    ensures r == At(FramesOf(region), n)
    ensures r.None? ==> n == |FramesOf(region)| + left
  {
    left := n;
    if !region.usable {
      return None, n;
    }
    var address, end := region.StartAddress(), region.EndAddress();
    while address < end
      invariant left <= n
      invariant At(FramesOf(region), n) == At(Stepped(address, end), left)
      invariant |FramesOf(region)| == n - left + |Stepped(address, end)|
      decreases end - address
    {
      if left == 0 {
        return Some(ContainingFrame(address)), 0;
      }
      address := address + FRAME_SIZE;
      left := left - 1;
    }
    r := None;
  }

  // ---------------------------------------------------------------------
  // What a run of allocations hands out
  // ---------------------------------------------------------------------

  lemma {:induction false} SteppedAt(from: nat, to: nat, k: nat)
    requires from % FRAME_SIZE == 0 && to % FRAME_SIZE == 0 && from <= to
    ensures |Stepped(from, to)| * FRAME_SIZE == to - from
    ensures k < |Stepped(from, to)| ==> Stepped(from, to)[k] == from + k * FRAME_SIZE
    decreases if from < to then to - from else 0
  {
    if from < to {
      assert from + FRAME_SIZE <= to;
      SteppedAt(from + FRAME_SIZE, to, if k > 0 then k - 1 else 0);
    }
  }

  /** A region yields exactly its frames, each at its own position. */
  lemma RegionFrames(r: Region, k: nat)
    requires k < |FramesOf(r)|
    ensures r.usable && r.startFrame + k < r.endFrame && FramesOf(r)[k] == (r.startFrame + k) * FRAME_SIZE
  {
    if r.startFrame <= r.endFrame {
      SteppedAt(r.StartAddress(), r.EndAddress(), k);
    }
  }

  lemma RegionYields(r: Region, frame: nat)
    requires frame % 4096 == 0 && InRegion(r, frame)
    ensures frame in FramesOf(r)
  {
    var k := frame / FRAME_SIZE - r.startFrame;
    SteppedAt(r.StartAddress(), r.EndAddress(), k);
    assert FramesOf(r)[k] == frame;
  }

  /** The frames enumerated are exactly the usable ones. */
  lemma {:induction false} EnumeratesUsable(m: MemoryMap, frame: nat)
    ensures frame in UsableFrames(m) <==> Usable(m, frame)
  {
    hide FramesOf, InRegion;
    if m != [] {
      EnumeratesUsable(m[1..], frame);
      RegionHolds(m[0], frame);
      assert m == [m[0]] + m[1..];
      if Usable(m[1..], frame) {
        var i :| 0 <= i < |m[1..]| && InRegion(m[1..][i], frame);
        assert InRegion(m[i + 1], frame);
      }
      if Usable(m, frame) {
        var i :| 0 <= i < |m| && InRegion(m[i], frame);
        if i > 0 {
          assert InRegion(m[1..][i - 1], frame);
        }
      }
    }
  }

  /** A region yields exactly the frames in it. */
  lemma RegionHolds(r: Region, frame: nat)
    ensures frame in FramesOf(r) <==> frame % 4096 == 0 && InRegion(r, frame)
  {
    if frame in FramesOf(r) {
      var k :| 0 <= k < |FramesOf(r)| && FramesOf(r)[k] == frame;
      RegionFrames(r, k);
    }
    if frame % 4096 == 0 && InRegion(r, frame) {
      RegionYields(r, frame);
    }
  }

  /** With disjoint regions no frame is enumerated twice. */
  lemma {:induction false} EnumeratesOnce(m: MemoryMap, i: nat, j: nat)
    requires Disjoint(m) && i < j < |UsableFrames(m)|
    ensures UsableFrames(m)[i] != UsableFrames(m)[j]
  {
    hide FramesOf, Disjoint;
    var first, rest := FramesOf(m[0]), UsableFrames(m[1..]);
    var all := UsableFrames(m);
    assert all == first + rest;
    if j < |first| {
      RegionFrames(m[0], i);
      RegionFrames(m[0], j);
    } else if i >= |first| {
      DisjointRest(m);
      EnumeratesOnce(m[1..], i - |first|, j - |first|);
    } else {
      assert all[i] == first[i] && all[j] == rest[j - |first|];
      RegionsApart(m, i, all[j]);
    }
  }

  lemma DisjointRest(m: MemoryMap)
    requires m != [] && Disjoint(m)
    ensures Disjoint(m[1..])
  {
    assert forall a :: 0 <= a < |m[1..]| ==> m[1..][a] == m[a + 1];
  }

  /** A frame of the first region is none of the later regions'. */
  lemma RegionsApart(m: MemoryMap, i: nat, frame: nat)
    requires m != [] && Disjoint(m) && i < |FramesOf(m[0])| && frame in UsableFrames(m[1..])
    ensures FramesOf(m[0])[i] != frame
  {
    hide UsableFrames, FramesOf;
    RegionFrames(m[0], i);
    EnumeratesUsable(m[1..], frame);
    var k :| 0 <= k < |m[1..]| && InRegion(m[1..][k], frame);
    assert m[k + 1] == m[1..][k];
    assert m[0].endFrame <= m[k + 1].startFrame || m[k + 1].endFrame <= m[0].startFrame;
  }

  /** Regions in address order, as the memory map lists them. */
  predicate Ascending(m: MemoryMap) {
    forall i, j :: 0 <= i < j < |m| ==> m[i].endFrame <= m[j].startFrame
  }

  /** Then frames are enumerated in address order. */
  lemma {:induction false} EnumeratesInOrder(m: MemoryMap, i: nat, j: nat)
    requires Ascending(m) && i < j < |UsableFrames(m)|
    ensures UsableFrames(m)[i] < UsableFrames(m)[j]
  {
    hide FramesOf, Ascending;
    var first, rest := FramesOf(m[0]), UsableFrames(m[1..]);
    assert UsableFrames(m) == first + rest;
    if j < |first| {
      RegionFrames(m[0], i);
      RegionFrames(m[0], j);
    } else if i >= |first| {
      AscendingRest(m);
      EnumeratesInOrder(m[1..], i - |first|, j - |first|);
    } else {
      FirstRegionFirst(m, i, rest[j - |first|]);
    }
  }

  lemma AscendingRest(m: MemoryMap)
    requires m != [] && Ascending(m)
    ensures Ascending(m[1..])
  {
    assert forall a :: 0 <= a < |m[1..]| ==> m[1..][a] == m[a + 1];
  }

  lemma FirstRegionFirst(m: MemoryMap, i: nat, frame: nat)
    requires m != [] && Ascending(m) && i < |FramesOf(m[0])| && frame in UsableFrames(m[1..])
    ensures FramesOf(m[0])[i] < frame
  {
    hide UsableFrames, FramesOf;
    RegionFrames(m[0], i);
    EnumeratesUsable(m[1..], frame);
    var k :| 0 <= k < |m[1..]| && InRegion(m[1..][k], frame);
    assert m[k + 1] == m[1..][k];
    assert m[0].endFrame <= m[k + 1].startFrame;
  }

  /** Allocating any number of times from boot. */
  method AllocateMany(m: MemoryMap, count: nat) returns (frames: seq<Option<nat>>)
    requires Disjoint(m)
    ensures |frames| == count
    // every frame handed out is usable, and no frame is handed out twice
    ensures forall i :: 0 <= i < count && frames[i].Some? ==> Usable(m, frames[i].value)
    ensures forall i, j :: 0 <= i < j < count && frames[i].Some? && frames[j].Some? ==> frames[i] != frames[j]
    // once there is none, every usable frame has been handed out, and there is none for ever
    ensures forall i, f: nat :: 0 <= i < count && frames[i].None? && Usable(m, f) ==> Some(f) in frames[..i]
    ensures forall i, j :: 0 <= i < j < count && frames[i].None? ==> frames[j].None?
  {
    var allocator := new BootInfoFrameAllocator(m);
    ghost var all := UsableFrames(m);
    frames := [];
    while |frames| < count
      invariant |frames| <= count && allocator.next == |frames| && allocator.memoryMap == m
      invariant forall i :: 0 <= i < |frames| ==> frames[i] == if i < |all| then Some(all[i]) else None
    {
      var frame := allocator.AllocateFrame();
      frames := frames + [frame];
    }
    forall i | 0 <= i < count && frames[i].Some? ensures Usable(m, frames[i].value) {
      EnumeratesUsable(m, frames[i].value);
    }
    forall i, j | 0 <= i < j < count && frames[i].Some? && frames[j].Some? ensures frames[i] != frames[j] {
      EnumeratesOnce(m, i, j);
    }
    forall i, f: nat | 0 <= i < count && frames[i].None? && Usable(m, f) ensures Some(f) in frames[..i] {
      EnumeratesUsable(m, f);
      var k :| 0 <= k < |all| && all[k] == f;
      assert frames[..i][k] == Some(f);
    }
  }
}
