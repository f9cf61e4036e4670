/** The bump allocator as one caller sees it, and what whole sequences of calls add up to. */
module BumpSequential {
  import opened Prelude
  import opened Bits
  import opened Layouts
  import opened Bump

  /** The two events of an undisturbed `alloc` leave this word and return this pointer. */
  ghost predicate AllocEvents(s: State, id: nat, size: nat, align: nat, next: nat, ptr: Option<nat>) {
    var e, c := FetchAdd(id, size, align), CheckEnd(id);
    && Enabled(s, e) && Enabled(Bump.Next(s, e), c)
    && next == Bump.Next(Bump.Next(s, e), c).next
    && (ptr.None? <==> ReturnsNull(Bump.Next(s, e), c))
    && (ptr.Some? ==> Bump.Next(Bump.Next(s, e), c).cells[id] == Cell(ptr.value, size, Live))
  }

  lemma {:induction false} AllocIsTwoEvents(s: State, id: nat, size: nat, align: nat)
    requires Rounded(size, align) && id !in s.cells
    ensures AllocEvents(s, id, size, align, FetchAddWord(s.next, size), if s.next > s.heapEnd then None else Some(s.next))
  {
  }

  class BumpAllocator {
    var heapStart: nat
    var heapEnd: nat
    var next: nat

    /** A zeroed allocator, as the static initializer leaves it. */
    constructor ()
      ensures heapStart == heapEnd == next == 0
    {
      heapStart, heapEnd, next := 0, 0, 0;
    }

    method Init(start: nat, size: nat)
      modifies this
      ensures heapStart == next == start && heapEnd == start + size
      ensures start + size < WORD ==> Bump.Init(State(heapStart, heapEnd, next, map[]))
    {
      heapStart := start;
      heapEnd := start + size;
      next := start;
    }

    /** Undisturbed, `alloc` is the event `FetchAdd` followed by `CheckEnd`. */
    method Alloc(layout: Layout, ghost s: State, ghost id: nat) returns (ptr: Option<nat>, ghost size: nat)
      requires layout.Valid()
      requires s.heapStart == heapStart && s.heapEnd == heapEnd && s.next == next && id !in s.cells
      modifies this`next
      ensures Rounded(size, layout.align) && layout.size <= size < layout.size + layout.align
      ensures next == FetchAddWord(old(next), size)
      ensures ptr == if old(next) > heapEnd then None else Some(old(next))
      ensures AllocEvents(s, id, size, layout.align, next, ptr)
    {
      LayoutRounds(layout);
      var rounded := AlignUp(layout.size, layout.align);
      size := rounded;
      AllocIsTwoEvents(s, id, size, layout.align);
      var newPtr := next;
      next := (next + rounded) % WORD;
      if newPtr > heapEnd {
        ptr := None;
      } else {
        ptr := Some(newPtr);
      }
    }

    /** Undisturbed, `dealloc` is `LoadNext` followed, when it matched, by `Swap`. */
    method Dealloc(ptr: nat, layout: Layout, ghost s: State, ghost id: nat)
      requires layout.Valid() && 1 <= layout.align < WORD
      requires s.heapStart == heapStart && s.heapEnd == heapEnd && s.next == next
      requires id in s.cells && s.cells[id] == Cell(ptr, AlignUp(layout.size, layout.align), Live)
      modifies this`next
      ensures next == DeallocWord(old(next), ptr, s.cells[id].size)
      ensures Enabled(s, LoadNext(id))
      ensures var t := Bump.Next(s, LoadNext(id));
              if id in t.cells then Enabled(t, Swap(id)) && next == Bump.Next(t, Swap(id)).next else next == t.next
    {
      LayoutRounds(layout);
      var size := AlignUp(layout.size, layout.align);
      var current := next;
      if ptr + size == current {
        if next == current {
          next := current - size;
        }
      }
    }
  }

  function DeallocWord(next: nat, ptr: nat, size: nat): (r: nat) {
    if ptr + size == next then ptr else next
  }

  // ---------------------------------------------------------------- scoped use

  /** `Scope(n, body, rest)`: allocate `n` bytes, run `body`, free unless null was returned, run `rest`. */
  datatype Script = Done | Scope(size: nat, body: Script, rest: Script) {
    function Total(): nat {
      if Done? then 0 else size + body.Total() + rest.Total()
    }
  }

  function RunScript(heapEnd: nat, next: nat, p: Script): nat
    decreases p
  {
    match p
    case Done => next
    case Scope(size, body, rest) =>
      var inside := RunScript(heapEnd, FetchAddWord(next, size), body);
      var after := if next > heapEnd then inside else DeallocWord(inside, next, size);
      RunScript(heapEnd, after, rest)
  }

  /** Every positive-size scope starts, below its enclosing scopes, no later than the heap end. */
  predicate Fits(heapEnd: nat, next: nat, p: Script)
    decreases p
  {
    p.Scope? ==>
      && (p.size == 0 || next <= heapEnd)
      && Fits(heapEnd, next + p.size, p.body)
      && Fits(heapEnd, next, p.rest)
  }

  lemma {:induction false} ScriptBounds(heapEnd: nat, next: nat, p: Script)
    requires next + p.Total() < WORD
    ensures next <= RunScript(heapEnd, next, p) <= next + p.Total()
    ensures RunScript(heapEnd, next, p) == next <==> Fits(heapEnd, next, p)
    decreases p
  {
    match p
    case Done =>
    case Scope(size, body, rest) =>
      NoWrapAdds(next, size);
      ScriptBounds(heapEnd, next + size, body);
      var inside := RunScript(heapEnd, next + size, body);
      var after := if next > heapEnd then inside else DeallocWord(inside, next, size);
      ScriptBounds(heapEnd, after, rest);
  }

  /** A well-bracketed run gives everything back exactly when every positive-size request in it fits. */
  lemma {:induction false} BracketedRunRestores(heapEnd: nat, next: nat, p: Script)
    requires next + p.Total() < WORD
    ensures RunScript(heapEnd, next, p) == next <==> Fits(heapEnd, next, p)
  {
    ScriptBounds(heapEnd, next, p);
  }

  // ---------------------------------------------------------------- alignment

  /** The alignments requested, in the order of the `fetch_add`s. */
  function Requests(es: seq<Event>): (r: seq<nat>) {
    if es == [] then []
    else Requests(es[..|es| - 1]) + (if es[|es| - 1].FetchAdd? then [es[|es| - 1].align] else [])
  }

  lemma {:induction false} RequestSeen(es: seq<Event>, i: nat, n: nat)
    requires i < n <= |es| && es[i].FetchAdd?
    ensures es[i].align in Requests(es[..n])
    ensures Requests(es[..n]) != []
  {
    assert es[..n][..n - 1] == es[..n - 1];
    if i < n - 1 { RequestSeen(es, i, n - 1); }
  }

  lemma {:induction false} RequestsPrefix(es: seq<Event>, n: nat)
    requires n <= |es|
    ensures Requests(es[..n]) <= Requests(es)
    decreases |es| - n
  {
    if n == |es| {
      assert es[..n] == es;
    } else {
      assert es[..n + 1][..n] == es[..n];
      RequestsPrefix(es, n + 1);
    }
  }

  /** An earlier request cannot spoil a later one: it is at least as strict, or one unit of it fills the heap. */
  predicate Harmless(heapStart: nat, heapEnd: nat, earlier: nat, later: nat) {
    later <= earlier || heapStart + earlier > heapEnd
  }

  /** Every alignment divides the heap start, and no request spoils a later one. */
  ghost predicate Suited(heapStart: nat, heapEnd: nat, aligns: seq<nat>) {
    && (forall j :: 0 <= j < |aligns| ==> aligns[j] > 0 && heapStart % aligns[j] == 0)
    && forall i, j :: 0 <= i < j < |aligns| ==> Harmless(heapStart, heapEnd, aligns[i], aligns[j])
  }

  /** A word that is not beyond the heap end is a multiple. */
  predicate AlignedBelow(heapEnd: nat, x: nat, m: nat)
    requires m > 0
  {
    x <= heapEnd ==> x % m == 0
  }

  /** Everything in the heap is aligned, as far as it starts within it. */
  ghost predicate AllAligned(s: State, m: nat)
    requires m > 0
  {
    AlignedBelow(s.heapEnd, s.next, m) && forall i :: i in s.cells ==> AlignedBelow(s.heapEnd, s.cells[i].ptr, m)
  }

  lemma {:induction false} AlignedStep(s: State, e: Event, k: nat)
    requires Inv(s) && Enabled(s, e) && NoWrap(s, e) && k < 64 && AllAligned(s, Pow2(k))
    requires e.FetchAdd? ==> Harmless(s.heapStart, s.heapEnd, e.align, Pow2(k))
    ensures AllAligned(Bump.Next(s, e), Pow2(k))
  {
    match e
    case FetchAdd(id, size, align) =>
      AlignedAdd(s.heapStart, s.heapEnd, s.next, size, align, k);
      NoWrapAdds(s.next, size);
    case Swap(id) =>
      assert CellOk(s, s.cells[id]);
    case _ =>
  }

  /** Everything within the heap stays aligned to a power of two that no request spoils. */
  lemma {:induction false} AlignedSoFar(ss: seq<State>, es: seq<Event>, n: nat, k: nat)
    requires IsRun(ss, es) && n <= |es| && k < 64
    requires ss[0].heapStart % Pow2(k) == 0
    requires forall i :: 0 <= i < n && es[i].FetchAdd? ==> Harmless(ss[0].heapStart, ss[0].heapEnd, es[i].align, Pow2(k))
    ensures AllAligned(ss[n], Pow2(k)) && ss[n].heapEnd == ss[0].heapEnd
  {
    RunKeepsInv(ss, es, n);
    if n > 0 {
      AlignedSoFar(ss, es, n - 1, k);
      RunKeepsInv(ss, es, n - 1);
      assert Stepped(ss[n - 1], es[n - 1], ss[n]);
      AlignedStep(ss[n - 1], es[n - 1], k);
    }
  }

  lemma {:induction false} AlignedAdd(heapStart: nat, heapEnd: nat, next: nat, size: nat, align: nat, k: nat)
    requires k < 64 && Rounded(size, align) && heapStart <= next && Harmless(heapStart, heapEnd, align, Pow2(k))
    requires AlignedBelow(heapEnd, next, Pow2(k))
    ensures AlignedBelow(heapEnd, next + size, Pow2(k))
  {
    if next + size <= heapEnd && size > 0 {
      var j: nat :| j < 64 && align == Pow2(j);
      MultiplesApart(0, size, align);
      Pow2Divides(k, j);
      MultipleTrans(size, align, Pow2(k));
      MultipleSum(next, size, Pow2(k));
    }
  }

  /** For suited requests, no request before the one at event `n` spoils it. */
  lemma {:induction false} EarlierIsHarmless(ss: seq<State>, es: seq<Event>, n: nat)
    requires IsRun(ss, es) && n < |es| && es[n].FetchAdd?
    requires Suited(ss[0].heapStart, ss[0].heapEnd, Requests(es))
    ensures forall i :: 0 <= i < n && es[i].FetchAdd? ==>
      Harmless(ss[0].heapStart, ss[0].heapEnd, es[i].align, es[n].align)
    ensures es[n].align > 0 && ss[0].heapStart % es[n].align == 0
  {
    var before, upTo := Requests(es[..n]), Requests(es[..n + 1]);
    assert es[..n + 1][..n] == es[..n];
    RequestsPrefix(es, n + 1);
    assert Requests(es)[|before|] == es[n].align;
    forall i | 0 <= i < n && es[i].FetchAdd?
      ensures Harmless(ss[0].heapStart, ss[0].heapEnd, es[i].align, es[n].align)
    {
      RequestSeen(es, i, n);
      var m :| 0 <= m < |before| && before[m] == es[i].align;
      assert Requests(es)[m] == upTo[m];
    }
  }

  /** Suited requests that start within the heap get pointers aligned for them, in every interleaving. */
  lemma {:induction false} SuitedIsAligned(ss: seq<State>, es: seq<Event>, n: nat)
    requires IsRun(ss, es) && n < |es| && es[n].FetchAdd? && ss[n].next <= ss[0].heapEnd
    requires Suited(ss[0].heapStart, ss[0].heapEnd, Requests(es))
    ensures es[n].align > 0 && ss[n].next % es[n].align == 0
  {
    assert Stepped(ss[n], es[n], ss[n + 1]);
    EarlierIsHarmless(ss, es, n);
    var k: nat :| k < 64 && es[n].align == Pow2(k);
    AlignedSoFar(ss, es, n, k);
  }

  /** A probe: the requests of `aligns`, all empty but number `hot`, which takes one unit of its alignment. */
  function Probe(aligns: seq<nat>, hot: int): (es: seq<Event>) {
    seq(|aligns|, i requires 0 <= i < |aligns| => FetchAdd(i, if i == hot then aligns[i] else 0, aligns[i]))
  }

  ghost predicate Alignments(aligns: seq<nat>) {
    forall i :: 0 <= i < |aligns| ==> IsAlignment(aligns[i]) && aligns[i] > 0
  }

  lemma {:induction false} ProbeRequests(aligns: seq<nat>, hot: int)
    ensures Requests(Probe(aligns, hot)) == aligns
  {
    if aligns != [] {
      var n := |aligns| - 1;
      ProbeRequests(aligns[..n], hot);
      assert Probe(aligns, hot)[..n] == Probe(aligns[..n], hot);
    }
  }

  function ProbeNext(heapStart: nat, aligns: seq<nat>, hot: int, i: nat): nat {
    if 0 <= hot < i && hot < |aligns| then heapStart + aligns[hot] else heapStart
  }

  function ProbeState(heapStart: nat, heapEnd: nat, aligns: seq<nat>, hot: int, i: nat): State {
    State(heapStart, heapEnd, ProbeNext(heapStart, aligns, hot, i),
          map j: nat | j < i && j < |aligns| ::
            Cell(ProbeNext(heapStart, aligns, hot, j), if j == hot then aligns[j] else 0, Reserved))
  }

  lemma {:induction false} UnitIsRounded(align: nat)
    requires IsAlignment(align) && align > 0
    ensures Rounded(0, align) && (align <= ISIZE_MAX ==> Rounded(align, align))
  {
    DivModUnique(align, align, 1, 0);
  }

  lemma {:induction false} NoWrapAdds(next: nat, size: nat)
    requires next + size < WORD
    ensures FetchAddWord(next, size) == next + size
  {
  }

  /** The probe takes nothing, or one unit that fits the heap. */
  predicate Modest(heapStart: nat, heapEnd: nat, aligns: seq<nat>, hot: int) {
    0 <= hot < |aligns| ==> heapStart + aligns[hot] <= heapEnd && aligns[hot] <= ISIZE_MAX
  }

  lemma {:induction false} ProbeStep(heapStart: nat, heapEnd: nat, aligns: seq<nat>, hot: int, i: nat)
    requires Alignments(aligns) && heapStart <= heapEnd < WORD && i < |aligns| && Modest(heapStart, heapEnd, aligns, hot)
    ensures Stepped(ProbeState(heapStart, heapEnd, aligns, hot, i), Probe(aligns, hot)[i],
                    ProbeState(heapStart, heapEnd, aligns, hot, i + 1))
  {
    var s, e, t := ProbeState(heapStart, heapEnd, aligns, hot, i), Probe(aligns, hot)[i],
                   ProbeState(heapStart, heapEnd, aligns, hot, i + 1);
    UnitIsRounded(aligns[i]);
    assert e == FetchAdd(i, if i == hot then aligns[i] else 0, aligns[i]);
    assert Enabled(s, e);
    NoWrapAdds(s.next, e.size);
    assert t.cells == s.cells[i := Cell(s.next, e.size, Reserved)];
  }

  /** The probe is a run with the given requests. */
  lemma {:induction false} ProbeRuns(heapStart: nat, heapEnd: nat, aligns: seq<nat>, hot: int) returns (ss: seq<State>)
    requires Alignments(aligns) && heapStart <= heapEnd < WORD && Modest(heapStart, heapEnd, aligns, hot)
    ensures IsRun(ss, Probe(aligns, hot)) && ss[0].heapStart == heapStart && ss[0].heapEnd == heapEnd
    ensures Requests(Probe(aligns, hot)) == aligns
    ensures forall i :: 0 <= i <= |aligns| ==> ss[i].next == ProbeNext(heapStart, aligns, hot, i)
  {
    ProbeRequests(aligns, hot);
    ss := seq(|aligns| + 1, i requires 0 <= i => ProbeState(heapStart, heapEnd, aligns, hot, i));
    forall i | 0 <= i < |aligns|
      ensures Stepped(ss[i], Probe(aligns, hot)[i], ss[i + 1])
    {
      ProbeStep(heapStart, heapEnd, aligns, hot, i);
    }
    assert ss[0].cells == map[];
  }

  /**
   * Every run with these requests returns only pointers aligned for them; a start beyond the heap
   * end is returned as null.
   */
  ghost predicate AlwaysAligned(heapStart: nat, heapEnd: nat, aligns: seq<nat>) {
    forall ss: seq<State>, es: seq<Event>, n: nat ::
      IsRun(ss, es) && ss[0].heapStart == heapStart && ss[0].heapEnd == heapEnd && Requests(es) == aligns
      && n < |es| && es[n].FetchAdd? && es[n].align > 0 && ss[n].next <= heapEnd
      ==> ss[n].next % es[n].align == 0
  }

  /**
   * `alloc` rounds the size and not the start, so pointers may be misaligned. The pointers
   * returned are aligned in every run with given alignment requests exactly when the requests
   * all divide the heap start and none of them spoils a later one.
   */
  lemma {:induction false} AlignedIffSuited(heapStart: nat, heapEnd: nat, aligns: seq<nat>)
    requires Alignments(aligns) && heapStart <= heapEnd < WORD
    ensures AlwaysAligned(heapStart, heapEnd, aligns) <==> Suited(heapStart, heapEnd, aligns)
  {
    if Suited(heapStart, heapEnd, aligns) {
      forall ss: seq<State>, es: seq<Event>, n: nat |
        IsRun(ss, es) && ss[0].heapStart == heapStart && ss[0].heapEnd == heapEnd && Requests(es) == aligns
        && n < |es| && es[n].FetchAdd? && es[n].align > 0 && ss[n].next <= heapEnd
        ensures ss[n].next % es[n].align == 0
      {
        SuitedIsAligned(ss, es, n);
      }
    }
    if AlwaysAligned(heapStart, heapEnd, aligns) {
      forall j | 0 <= j < |aligns|
        ensures aligns[j] > 0 && heapStart % aligns[j] == 0
      {
        StartIsAligned(heapStart, heapEnd, aligns, j);
      }
      forall i, j | 0 <= i < j < |aligns|
        ensures Harmless(heapStart, heapEnd, aligns[i], aligns[j])
      {
        NoneSpoils(heapStart, heapEnd, aligns, i, j);
      }
    }
  }

  lemma {:induction false} StartIsAligned(heapStart: nat, heapEnd: nat, aligns: seq<nat>, j: nat)
    requires Alignments(aligns) && heapStart <= heapEnd < WORD
    requires AlwaysAligned(heapStart, heapEnd, aligns) && j < |aligns|
    ensures aligns[j] > 0 && heapStart % aligns[j] == 0
  {
    var ss := ProbeRuns(heapStart, heapEnd, aligns, -1);
    var es := Probe(aligns, -1);
    assert es[j].FetchAdd? && es[j].align == aligns[j];
    assert ss[j].next == heapStart;
  }

  /** No alignment exceeds the largest, half a word. */
  lemma {:induction false} AlignmentBound(a: nat)
    requires IsAlignment(a)
    ensures a <= ISIZE_MAX + 1
  {
    var k: nat :| k < 64 && a == Pow2(k);
    WordIsPow2();
    Pow2Monotone(k, 63);
  }

  lemma {:induction false} NoneSpoils(heapStart: nat, heapEnd: nat, aligns: seq<nat>, i: nat, j: nat)
    requires Alignments(aligns) && heapStart <= heapEnd < WORD
    requires AlwaysAligned(heapStart, heapEnd, aligns) && i < j < |aligns|
    ensures Harmless(heapStart, heapEnd, aligns[i], aligns[j])
  {
    AlignmentBound(aligns[i]);
    AlignmentBound(aligns[j]);
    if aligns[i] < aligns[j] && heapStart + aligns[i] <= heapEnd {
      StartIsAligned(heapStart, heapEnd, aligns, j);
      var ss := ProbeRuns(heapStart, heapEnd, aligns, i);
      var es := Probe(aligns, i);
      assert es[j].FetchAdd? && es[j].align == aligns[j];
      assert ss[j].next == heapStart + aligns[i];
      MultiplesApart(heapStart, heapStart + aligns[i], aligns[j]);
    }
  }

  /** One byte and then a word on the kernel heap: the word's pointer is returned, and is not aligned. */
  lemma {:induction false} MisalignedPointer() returns (ss: seq<State>, es: seq<Event>)
    ensures IsRun(ss, es) && ss[0].heapStart == HEAP_START && ss[0].heapEnd == HEAP_START + HEAP_SIZE
    ensures |es| == 4 && es[2] == FetchAdd(1, 8, 8)
    ensures 1 in ss[4].cells && ss[4].cells[1].phase.Live? && ss[4].cells[1].ptr % 8 != 0
  {
    assert Pow2(0) == 1 && Pow2(3) == 8;
    es := [FetchAdd(0, 1, 1), CheckEnd(0), FetchAdd(1, 8, 8), CheckEnd(1)];
    var s0 := State(HEAP_START, HEAP_START + HEAP_SIZE, HEAP_START, map[]);
    var s1 := Bump.Next(s0, es[0]);
    var s2 := Bump.Next(s1, es[1]);
    var s3 := Bump.Next(s2, es[2]);
    ss := [s0, s1, s2, s3, Bump.Next(s3, es[3])];
    assert forall i :: 0 <= i < 4 ==> Stepped(ss[i], es[i], ss[i + 1]);
  }

  // ---------------------------------------------------------------- overflow

  ghost predicate LiveOverlap(s: State) {
    exists a, b, x :: a in s.cells && b in s.cells && a != b && s.cells[a].phase.Live? && s.cells[b].phase.Live?
      && Contains(s.cells[a], x) && Contains(s.cells[b], x)
  }

  /** Successive states of the allocator, in which the word may overflow. */
  ghost predicate Overflowing(ss: seq<State>, es: seq<Event>) {
    |ss| == |es| + 1 && forall i :: 0 <= i < |es| ==> Enabled(ss[i], es[i]) && ss[i + 1] == Bump.Next(ss[i], es[i])
  }

  /**
   * The no-overflow condition is needed: three requests on the kernel heap wrap the word and
   * leave two live blocks sharing bytes. The second request even returns null, but its size
   * stays added.
   */
  lemma {:induction false} WrapOverlaps() returns (ss: seq<State>, es: seq<Event>)
    ensures Overflowing(ss, es) && Init(ss[0])
    ensures ss[0].heapStart == HEAP_START && ss[0].heapEnd == HEAP_START + HEAP_SIZE
    ensures LiveOverlap(ss[|es|])
  {
    assert Pow2(0) == 1;
    es := [FetchAdd(0, ISIZE_MAX, 1), CheckEnd(0), FetchAdd(1, ISIZE_MAX, 1), CheckEnd(1), FetchAdd(2, 16, 1), CheckEnd(2)];
    var s0 := State(HEAP_START, HEAP_START + HEAP_SIZE, HEAP_START, map[]);
    var s1 := Bump.Next(s0, es[0]);
    var s2 := Bump.Next(s1, es[1]);
    var s3 := Bump.Next(s2, es[2]);
    var s4 := Bump.Next(s3, es[3]);
    assert s4.next == HEAP_START - 2;
    var s5 := Bump.Next(s4, es[4]);
    var s6 := Bump.Next(s5, es[5]);
    ss := [s0, s1, s2, s3, s4, s5, s6];
    assert Contains(s6.cells[0], HEAP_START) && Contains(s6.cells[2], HEAP_START);
  }

  lemma {:induction false} FreshIds(used: set<nat>) returns (n: nat)
    ensures forall i :: i in used ==> i < n
  {
    if used == {} {
      n := 0;
    } else {
      var x :| x in used;
      n := FreshIds(used - {x});
      if n <= x { n := x + 1; }
      assert forall i :: i in used ==> i == x || i in used - {x};
    }
  }

  /** Requests of up to half a word each move the word from any value to any other. */
  lemma {:induction false} ThreePieces(from: nat, to: nat) returns (x: nat, y: nat, z: nat)
    requires to < from < WORD
    ensures x <= ISIZE_MAX && y <= ISIZE_MAX && z <= ISIZE_MAX
    ensures FetchAddWord(FetchAddWord(FetchAddWord(from, x), y), z) == to
  {
    var d := to + WORD - from;
    x := if d <= ISIZE_MAX then d else ISIZE_MAX;
    y := if d - x <= ISIZE_MAX then d - x else ISIZE_MAX;
    z := d - x - y;
  }

  /**
   * Once the word may overflow, every state with a live block that is not empty is five accesses
   * away from one in which that block shares a byte with another live one.
   */
  lemma {:induction false} OverlapIsNear(s: State, id: nat) returns (ss: seq<State>, es: seq<Event>)
    requires Inv(s) && id in s.cells && s.cells[id].phase.Live? && s.cells[id].size > 0
    ensures Overflowing(ss, es) && ss[0] == s && |es| == 5
    ensures LiveOverlap(ss[|es|])
  {
    var c := s.cells[id];
    assert CellOk(s, c);
    var n := FreshIds(s.cells.Keys);
    var x, y, z := ThreePieces(s.next, c.ptr);
    assert Pow2(0) == 1;
    es := [FetchAdd(n, x, 1), FetchAdd(n + 1, y, 1), FetchAdd(n + 2, z, 1), FetchAdd(n + 3, 1, 1), CheckEnd(n + 3)];
    assert forall i :: i in s.cells.Keys ==> i < n;
    var s1 := Bump.Next(s, es[0]);
    var s2 := Bump.Next(s1, es[1]);
    var s3 := Bump.Next(s2, es[2]);
    var s4 := Bump.Next(s3, es[3]);
    var s5 := Bump.Next(s4, es[4]);
    ss := [s, s1, s2, s3, s4, s5];
    assert s5.cells[id] == c && s5.cells[n + 3] == Cell(c.ptr, 1, Live);
    assert Contains(s5.cells[id], c.ptr) && Contains(s5.cells[n + 3], c.ptr);
  }
}
