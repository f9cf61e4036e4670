/** The physical frame allocator over the bootloader's memory map. */
module Frames {
  import opened Prelude
  import opened Paging

  datatype RegionType = Usable | Reserved

  /** A range of frame numbers, end exclusive. */
  datatype Region = Region(start: nat, end: nat, kind: RegionType)

  /** The addresses `lo`, `lo + 4096`, ... below `hi`. */
  function StepBy(lo: nat, hi: nat): (r: seq<nat>)
    decreases hi - lo
  {
    if lo >= hi then [] else [lo] + StepBy(lo + PAGE, hi)
  }

  function ContainingFrames(addrs: seq<nat>): (r: seq<nat>)
    ensures |r| == |addrs|
    ensures forall i :: 0 <= i < |r| ==> r[i] == addrs[i] / PAGE
  {
    seq(|addrs|, i requires 0 <= i < |addrs| => addrs[i] / PAGE)
  }

  /** The iterator pipeline: keep usable regions, step through their addresses, take the frames. */
  function UsableFrames(regions: seq<Region>): (r: seq<nat>) {
    if regions == [] then []
    else
      var rest := UsableFrames(regions[1..]);
      if regions[0].kind.Usable?
      then ContainingFrames(StepBy(regions[0].start * PAGE, regions[0].end * PAGE)) + rest
      else rest
  }

  function Nth(s: seq<nat>, n: nat): (r: Option<nat>) {
    if n < |s| then Some(s[n]) else None
  }

  class BootInfoFrameAllocator {
    const memoryMap: seq<Region>
    var next: nat
    /** The whole stream of usable frames. */
    ghost const usable: seq<nat>

    ghost predicate Valid() {
      usable == UsableFrames(memoryMap)
    }

    constructor (memoryMap: seq<Region>)
      ensures Valid() && this.memoryMap == memoryMap && next == 0
      ensures Remaining() == UsableFrames(memoryMap)
    {
      this.memoryMap := memoryMap;
      next := 0;
      usable := UsableFrames(memoryMap);
    }

    /** The frames not handed out yet. */
    ghost function Remaining(): (r: seq<nat>)
      reads this
    {
      Drop(usable, next)
    }

    ghost function Left(): (n: nat)
      reads this
    {
      if next <= |usable| then |usable| - next else 0
    }

    /** Recomputes the stream and skips to position `next`; seen from outside, pops a list. */
    method AllocateFrame() returns (frame: Option<nat>)
      requires Valid()
      modifies this`next
      ensures next == old(next) + 1
      ensures frame == Nth(usable, old(next))
      ensures old(Remaining()) == [] <==> frame.None?
      ensures frame.Some? ==> old(Remaining()) == [frame.value] + Remaining()
      ensures frame.None? ==> Remaining() == []
    {
      var frames := UsableFrames(memoryMap);
      frame := if next < |frames| then Some(frames[next]) else None;
      next := next + 1;
    }
  }

  function Drop(s: seq<nat>, n: nat): (r: seq<nat>) {
    if n <= |s| then s[n..] else []
  }

  // ---------------------------------------------------------------- as a list

  /** Results of `n` calls, each recomputing the stream. */
  function Calls(regions: seq<Region>, next: nat, n: nat): (r: seq<Option<nat>>)
    ensures |r| == n
    decreases n
  {
    if n == 0 then [] else [Nth(UsableFrames(regions), next)] + Calls(regions, next + 1, n - 1)
  }

  /** Results of `n` pops from a list. */
  function Pops(list: seq<nat>, n: nat): (r: seq<Option<nat>>)
    ensures |r| == n
  {
    if n == 0 then []
    else if list == [] then [None] + Pops(list, n - 1)
    else [Some(list[0])] + Pops(list[1..], n - 1)
  }

  /** The allocator refines popping a list. */
  lemma {:induction false} CallsArePops(regions: seq<Region>, next: nat, n: nat)
    ensures Calls(regions, next, n) == Pops(Drop(UsableFrames(regions), next), n)
    decreases n
  {
    if n > 0 {
      CallsArePops(regions, next + 1, n - 1);
      var list := Drop(UsableFrames(regions), next);
      if list != [] { assert list[1..] == Drop(UsableFrames(regions), next + 1); }
    }
  }

  lemma {:induction false} CallAt(regions: seq<Region>, next: nat, n: nat, i: nat)
    requires i < n
    ensures Calls(regions, next, n)[i] == Nth(UsableFrames(regions), next + i)
    decreases i
  {
    if i > 0 { CallAt(regions, next + 1, n - 1, i - 1); }
  }

  lemma {:induction false} StepByAt(first: nat, last: nat)
    ensures |StepBy(first * PAGE, last * PAGE)| == if first <= last then last - first else 0
    ensures forall i :: 0 <= i < |StepBy(first * PAGE, last * PAGE)| ==>
      StepBy(first * PAGE, last * PAGE)[i] == (first + i) * PAGE
    decreases last - first
  {
    if first < last { StepByAt(first + 1, last); }
  }

  predicate InUsable(regions: seq<Region>, f: nat) {
    exists i :: 0 <= i < |regions| && regions[i].kind.Usable? && regions[i].start <= f < regions[i].end
  }

  lemma {:induction false} RegionHas(r: Region, f: nat)
    ensures f in ContainingFrames(StepBy(r.start * PAGE, r.end * PAGE)) <==> r.start <= f < r.end
  {
    StepByAt(r.start, r.end);
    var fs := ContainingFrames(StepBy(r.start * PAGE, r.end * PAGE));
    if r.start <= f < r.end { assert fs[f - r.start] == f; }
  }

  /** The stream holds exactly the frames of usable regions. */
  lemma {:induction false} UsableExactly(regions: seq<Region>, f: nat)
    ensures f in UsableFrames(regions) <==> InUsable(regions, f)
  {
    if regions != [] {
      UsableExactly(regions[1..], f);
      RegionHas(regions[0], f);
      if InUsable(regions[1..], f) {
        var i :| 0 <= i < |regions[1..]| && regions[1..][i].kind.Usable?
          && regions[1..][i].start <= f < regions[1..][i].end;
        assert regions[i + 1] == regions[1..][i];
      }
      if InUsable(regions, f) {
        var i :| 0 <= i < |regions| && regions[i].kind.Usable? && regions[i].start <= f < regions[i].end;
        if i > 0 { assert regions[1..][i - 1] == regions[i]; }
      }
    }
  }

  function Size(r: Region): (n: nat) {
    if r.kind.Usable? && r.start <= r.end then r.end - r.start else 0
  }

  /** How many frames the usable regions before number `i` have. */
  function Offset(regions: seq<Region>, i: nat): (n: nat)
    requires i <= |regions|
  {
    if i == 0 then 0 else Size(regions[0]) + Offset(regions[1..], i - 1)
  }

  /** The stream goes through the regions in the order of the memory map, and through each region upwards. */
  lemma {:induction false} FramesInOrder(regions: seq<Region>, i: nat, k: nat)
    requires i < |regions| && k < Size(regions[i])
    ensures Offset(regions, i) + k < |UsableFrames(regions)|
    ensures UsableFrames(regions)[Offset(regions, i) + k] == regions[i].start + k
    decreases i
  {
    StepByAt(regions[0].start, regions[0].end);
    if i > 0 { FramesInOrder(regions[1..], i - 1, k); }
  }

  lemma {:induction false} StreamLength(regions: seq<Region>)
    ensures |UsableFrames(regions)| == Offset(regions, |regions|)
  {
    if regions != [] {
      StepByAt(regions[0].start, regions[0].end);
      StreamLength(regions[1..]);
    }
  }

  /** Usable regions share no frame. */
  ghost predicate Disjoint(regions: seq<Region>) {
    forall i, j :: 0 <= i < j < |regions| && regions[i].kind.Usable? && regions[j].kind.Usable? ==>
      regions[i].end <= regions[j].start || regions[j].end <= regions[i].start || regions[i].end <= regions[i].start
  }

  lemma {:induction false} UsableDistinct(regions: seq<Region>)
    requires Disjoint(regions)
    ensures Distinct(UsableFrames(regions))
  {
    if regions != [] {
      var head, rest := ContainingFrames(StepBy(regions[0].start * PAGE, regions[0].end * PAGE)), UsableFrames(regions[1..]);
      forall i, j | 0 <= i < j < |regions[1..]| && regions[1..][i].kind.Usable? && regions[1..][j].kind.Usable?
        ensures regions[1..][i].end <= regions[1..][j].start || regions[1..][j].end <= regions[1..][i].start
                || regions[1..][i].end <= regions[1..][i].start
      {
        assert regions[1..][i] == regions[i + 1] && regions[1..][j] == regions[j + 1];
      }
      UsableDistinct(regions[1..]);
      if regions[0].kind.Usable? {
        StepByAt(regions[0].start, regions[0].end);
        forall f | f in head
          ensures f !in rest
        {
          RegionHas(regions[0], f);
          UsableExactly(regions[1..], f);
          assert forall i :: 0 <= i < |regions[1..]| ==> regions[1..][i] == regions[i + 1];
        }
        HeadRestDistinct(head, rest);
      }
    }
  }

  lemma {:induction false} HeadRestDistinct(a: seq<nat>, b: seq<nat>)
    requires Distinct(a) && Distinct(b)
    requires forall x :: x in a ==> x !in b
    ensures Distinct(a + b)
  {
    var c := a + b;
    forall i, j | 0 <= i < j < |c|
      ensures c[i] != c[j]
    {
      if i < |a| { assert c[i] == a[i] && c[i] in a; } else { assert c[i] == b[i - |a|]; }
      if j < |a| { assert c[j] == a[j]; } else { assert c[j] == b[j - |a|] && c[j] in b; }
    }
  }

  /**
   * For a disjoint memory map, enough calls return every usable frame at exactly one position,
   * and the positions after the last frame are all `None`.
   */
  lemma {:induction false} EachFrameOnce(regions: seq<Region>, n: nat, f: nat)
    requires Disjoint(regions) && InUsable(regions, f) && n >= |UsableFrames(regions)|
    ensures exists i :: 0 <= i < n && Calls(regions, 0, n)[i] == Some(f)
    ensures forall i, j :: 0 <= i < n && 0 <= j < n && Calls(regions, 0, n)[i] == Some(f) == Calls(regions, 0, n)[j] ==>
      i == j
    ensures forall i :: |UsableFrames(regions)| <= i < n ==> Calls(regions, 0, n)[i] == None
  {
    UsableExactly(regions, f);
    UsableDistinct(regions);
    var fs := UsableFrames(regions);
    forall i | 0 <= i < n
      ensures Calls(regions, 0, n)[i] == Nth(fs, i)
    {
      CallAt(regions, 0, n, i);
    }
    var k :| 0 <= k < |fs| && fs[k] == f;
    assert Calls(regions, 0, n)[k] == Some(f);
  }

  /** Nothing but usable frames is ever returned. */
  lemma {:induction false} OnlyUsable(regions: seq<Region>, n: nat, i: nat)
    requires i < n && Calls(regions, 0, n)[i].Some?
    ensures InUsable(regions, Calls(regions, 0, n)[i].value)
  {
    CallAt(regions, 0, n, i);
    UsableExactly(regions, UsableFrames(regions)[i]);
  }
}
