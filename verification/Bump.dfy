/**
 * The lock-free bump allocator of the kernel heap.
 *
 * Every atomic access of `alloc` and `dealloc` is one event of a state machine, and an
 * in-flight call is identified with the block it handles, so any number of threads may be
 * inside the allocator and their accesses interleave freely.
 */
module Bump {
  import opened Bits
  import opened Layouts

  const HEAP_START: nat := 0x4444_4444_0000
  const HEAP_SIZE: nat := 100 * 1024

  // ---------------------------------------------------------------- atomic accesses

  function FetchAddWord(next: nat, size: nat): (r: nat) {
    (next + size) % WORD
  }

  /** `compare_exchange(seen, seen - size)`. */
  function SwapWord(next: nat, seen: nat, size: nat): (r: int) {
    if next == seen then seen - size else next
  }

  /**
   * Life of a block: `Reserved` after `fetch_add` and before the comparison with `heap_end`,
   * `Live` while the caller owns it, `Swapping` between the matching load of `dealloc` and
   * its `compare_exchange`.
   */
  datatype Phase = Reserved | Live | Swapping(seen: nat)

  datatype Cell = Cell(ptr: nat, size: nat, phase: Phase) {
    function End(): nat {
      ptr + size
    }
  }

  datatype State = State(heapStart: nat, heapEnd: nat, next: nat, cells: map<nat, Cell>)

  datatype Event =
    | FetchAdd(id: nat, size: nat, align: nat)
    | CheckEnd(id: nat)
    | LoadNext(id: nat)
    | Swap(id: nat)

  ghost predicate Enabled(s: State, e: Event) {
    match e
    case FetchAdd(id, size, align) => id !in s.cells && Rounded(size, align)
    case CheckEnd(id) => id in s.cells && s.cells[id].phase.Reserved?
    case LoadNext(id) => id in s.cells && s.cells[id].phase.Live?
    case Swap(id) => id in s.cells && s.cells[id].phase.Swapping?
  }

  /** Does this event make `alloc` return null? */
  ghost predicate ReturnsNull(s: State, e: Event)
    requires Enabled(s, e)
  {
    e.CheckEnd? && s.cells[e.id].ptr > s.heapEnd
  }

  ghost function Next(s: State, e: Event): State
    requires Enabled(s, e)
  {
    match e
    case FetchAdd(id, size, _) =>
      s.(next := FetchAddWord(s.next, size), cells := s.cells[id := Cell(s.next, size, Reserved)])
    case CheckEnd(id) =>
      if ReturnsNull(s, e) then s.(cells := s.cells - {id})
      else s.(cells := s.cells[id := s.cells[id].(phase := Live)])
    case LoadNext(id) =>
      if s.cells[id].End() == s.next then s.(cells := s.cells[id := s.cells[id].(phase := Swapping(s.next))])
      else s.(cells := s.cells - {id})
    case Swap(id) =>
      var c := s.cells[id];
      var word := SwapWord(s.next, c.phase.seen, c.size);
      s.(next := if word >= 0 then word else 0, cells := s.cells - {id})
  }

  ghost predicate NoWrap(s: State, e: Event)
    requires Enabled(s, e)
  {
    e.FetchAdd? ==> s.next + e.size < WORD
  }

  ghost predicate Init(s: State) {
    s.heapStart <= s.heapEnd < WORD && s.next == s.heapStart && s.cells == map[]
  }

  ghost predicate Stepped(s: State, e: Event, t: State) {
    Enabled(s, e) && NoWrap(s, e) && t == Next(s, e)
  }

  /** A run of the allocator in which the bump word does not overflow. */
  ghost predicate IsRun(ss: seq<State>, es: seq<Event>) {
    && |ss| == |es| + 1
    && Init(ss[0])
    && forall i :: 0 <= i < |es| ==> Stepped(ss[i], es[i], ss[i + 1])
  }

  // ---------------------------------------------------------------- disjointness

  predicate Apart(a: Cell, b: Cell) {
    a.size == 0 || b.size == 0 || a.End() <= b.ptr || b.End() <= a.ptr
  }

  ghost predicate CellOk(s: State, c: Cell) {
    && s.heapStart <= c.ptr
    && (c.size > 0 ==> c.End() <= s.next)
    && (c.phase.Swapping? ==> c.phase.seen == c.End())
    && (!c.phase.Reserved? ==> c.ptr <= s.heapEnd)
  }

  ghost predicate Inv(s: State) {
    && s.heapStart <= s.next < WORD
    && (forall i :: i in s.cells ==> CellOk(s, s.cells[i]))
    && (forall i, j :: i in s.cells && j in s.cells && i != j ==> Apart(s.cells[i], s.cells[j]))
  }

  lemma {:induction false} FetchAddKeepsInv(s: State, e: Event)
    requires Inv(s) && Enabled(s, e) && NoWrap(s, e) && e.FetchAdd?
    ensures Inv(Next(s, e))
  {
  }

  /**
   * The word a successful exchange gives back is the start of the freed block, and no other
   * block lies above it. This holds however often `next` left the value seen and came back.
   */
  lemma {:induction false} SwapKeepsInv(s: State, e: Event)
    requires Inv(s) && Enabled(s, e) && e.Swap?
    ensures Inv(Next(s, e))
  {
  }

  lemma {:induction false} OtherStepKeepsInv(s: State, e: Event)
    requires Inv(s) && Enabled(s, e) && (e.CheckEnd? || e.LoadNext?)
    ensures Inv(Next(s, e))
  {
  }

  lemma {:induction false} StepKeepsInv(s: State, e: Event)
    requires Inv(s) && Enabled(s, e) && NoWrap(s, e)
    ensures Inv(Next(s, e))
  {
    match e
    case FetchAdd(_, _, _) => FetchAddKeepsInv(s, e);
    case Swap(_) => SwapKeepsInv(s, e);
    case _ => OtherStepKeepsInv(s, e);
  }

  lemma {:induction false} RunKeepsInv(ss: seq<State>, es: seq<Event>, i: nat)
    requires IsRun(ss, es) && i <= |es|
    ensures Inv(ss[i])
    ensures ss[i].heapStart == ss[0].heapStart && ss[i].heapEnd == ss[0].heapEnd
  {
    if i > 0 {
      RunKeepsInv(ss, es, i - 1);
      assert Stepped(ss[i - 1], es[i - 1], ss[i]);
      StepKeepsInv(ss[i - 1], es[i - 1]);
    }
  }

  predicate Contains(c: Cell, x: nat) {
    c.ptr <= x < c.End()
  }

  /** In every run every byte of a block in use lies between the heap start and `next`. */
  lemma {:induction false} BlockInBounds(ss: seq<State>, es: seq<Event>, i: nat, a: nat, x: nat)
    requires IsRun(ss, es) && i <= |es| && a in ss[i].cells && Contains(ss[i].cells[a], x)
    ensures ss[0].heapStart <= x < ss[i].next
  {
    RunKeepsInv(ss, es, i);
    assert CellOk(ss[i], ss[i].cells[a]);
  }

  /** In every run the non-empty blocks in use are pairwise disjoint and lie between the heap start and `next`. */
  lemma {:induction false} LiveBlocksDisjoint(ss: seq<State>, es: seq<Event>, i: nat, a: nat, b: nat)
    requires IsRun(ss, es) && i <= |es|
    requires a in ss[i].cells && b in ss[i].cells && a != b
    ensures forall x: nat :: Contains(ss[i].cells[a], x) ==>
      ss[0].heapStart <= x < ss[i].next && !Contains(ss[i].cells[b], x)
  {
    RunKeepsInv(ss, es, i);
    assert CellOk(ss[i], ss[i].cells[a]) && CellOk(ss[i], ss[i].cells[b]);
    assert Apart(ss[i].cells[a], ss[i].cells[b]);
  }

  /** A `fetch_add` keeps the allocator's invariant exactly when the word does not overflow. */
  lemma {:induction false} WrapIsTheOnlyDanger(s: State, e: Event)
    requires Inv(s) && Enabled(s, e)
    ensures Inv(Next(s, e)) <==> NoWrap(s, e)
  {
    if NoWrap(s, e) {
      StepKeepsInv(s, e);
    } else {
      var t := Next(s, e);
      assert !CellOk(t, t.cells[e.id]);
    }
  }

  // ---------------------------------------------------------------- running out of memory

  /** A live block reaches past the end of the heap. */
  ghost predicate Overhangs(s: State, id: nat) {
    id in s.cells && s.cells[id].phase.Live? && s.cells[id].End() > s.heapEnd
  }

  /** At most one live block reaches past `heap_end`. */
  lemma {:induction false} OneOverhang(ss: seq<State>, es: seq<Event>, i: nat, a: nat, b: nat)
    requires IsRun(ss, es) && i <= |es|
    requires Overhangs(ss[i], a) && Overhangs(ss[i], b)
    ensures a == b
  {
    RunKeepsInv(ss, es, i);
    assert CellOk(ss[i], ss[i].cells[a]) && CellOk(ss[i], ss[i].cells[b]);
    if a != b { LiveBlocksDisjoint(ss, es, i, a, b); }
  }

  /** A stretch above the heap that only the block that failed there touches, with `next` beyond it. */
  ghost predicate Barrier(s: State, lo: nat, hi: nat) {
    && s.heapEnd < lo < hi <= s.next
    && forall i :: i in s.cells ==> Beside(s.cells[i], lo, hi)
  }

  predicate Beside(c: Cell, lo: nat, hi: nat) {
    c.size == 0 || c.End() <= lo || hi <= c.ptr || (c.phase.Reserved? && c.ptr == lo)
  }

  lemma {:induction false} BarrierStays(s: State, e: Event, lo: nat, hi: nat)
    requires Inv(s) && Enabled(s, e) && NoWrap(s, e) && Barrier(s, lo, hi)
    ensures Barrier(Next(s, e), lo, hi)
  {
  }

  lemma {:induction false} BarrierRemains(ss: seq<State>, es: seq<Event>, i: nat, j: nat, lo: nat, hi: nat)
    requires IsRun(ss, es) && i <= j <= |es| && Barrier(ss[i], lo, hi)
    ensures Barrier(ss[j], lo, hi)
    decreases j - i
  {
    if i < j {
      RunKeepsInv(ss, es, i);
      assert Stepped(ss[i], es[i], ss[i + 1]);
      BarrierStays(ss[i], es[i], lo, hi);
      BarrierRemains(ss, es, i + 1, j, lo, hi);
    }
  }

  /** A positive-size `alloc` that is about to return null raises a barrier. */
  lemma {:induction false} NullRaisesBarrier(s: State, e: Event)
    requires Inv(s) && Enabled(s, e) && ReturnsNull(s, e) && s.cells[e.id].size > 0
    ensures Barrier(s, s.cells[e.id].ptr, s.cells[e.id].End())
  {
  }

  /** The call whose `fetch_add` is event `j` reaches its comparison with `heap_end` at event `k`. */
  ghost predicate AllocSpans(ss: seq<State>, es: seq<Event>, j: nat, k: nat)
    requires |ss| == |es| + 1
  {
    && j < k < |es|
    && es[j].FetchAdd? && es[k] == CheckEnd(es[j].id)
    && forall m :: j < m <= k ==> es[j].id in ss[m].cells && ss[m].cells[es[j].id].phase.Reserved?
  }

  lemma {:induction false} StartIsOldNext(ss: seq<State>, es: seq<Event>, j: nat, m: nat)
    requires IsRun(ss, es) && j < m <= |es| && es[j].FetchAdd?
    requires forall n :: j < n <= m ==> es[j].id in ss[n].cells && ss[n].cells[es[j].id].phase.Reserved?
    ensures ss[m].cells[es[j].id].ptr == ss[j].next
    decreases m
  {
    var id := es[j].id;
    assert Stepped(ss[m - 1], es[m - 1], ss[m]);
    if m > j + 1 {
      assert id in ss[m - 1].cells;
      StartIsOldNext(ss, es, j, m - 1);
    }
  }

  // ---------------------------------------------------------------- the account

  /** Bytes added to the word by the first `i` events. */
  ghost function Added(es: seq<Event>, i: nat): nat
    requires i <= |es|
  {
    if i == 0 then 0 else Added(es, i - 1) + (if es[i - 1].FetchAdd? then es[i - 1].size else 0)
  }

  /** The exchange of a `dealloc` that finds the word it had loaded. */
  predicate Matches(s: State, e: Event) {
    e.Swap? && e.id in s.cells && s.cells[e.id].phase.Swapping? && s.cells[e.id].phase.seen == s.next
  }

  /** Bytes of the blocks whose exchange matched in the first `i` events. */
  ghost function GivenBack(ss: seq<State>, es: seq<Event>, i: nat): nat
    requires i <= |es| && |ss| == |es| + 1
  {
    if i == 0 then 0
    else GivenBack(ss, es, i - 1) + (if Matches(ss[i - 1], es[i - 1]) then ss[i - 1].cells[es[i - 1].id].size else 0)
  }

  /** In every run the word has moved by the sizes added less the sizes given back. */
  lemma {:induction false} WordAccount(ss: seq<State>, es: seq<Event>, i: nat)
    requires IsRun(ss, es) && i <= |es|
    ensures ss[i].next == ss[0].heapStart + Added(es, i) - GivenBack(ss, es, i)
  {
    if i > 0 {
      WordAccount(ss, es, i - 1);
      RunKeepsInv(ss, es, i - 1);
      assert Stepped(ss[i - 1], es[i - 1], ss[i]);
      if es[i - 1].Swap? { assert CellOk(ss[i - 1], ss[i - 1].cells[es[i - 1].id]); }
    }
  }

  /** An allocation returns null exactly when, at its start, the sizes not given back exceed the heap. */
  lemma {:induction false} NullIff(ss: seq<State>, es: seq<Event>, j: nat, k: nat)
    requires IsRun(ss, es) && AllocSpans(ss, es, j, k)
    ensures Enabled(ss[k], es[k])
    ensures ReturnsNull(ss[k], es[k]) <==> Added(es, j) - GivenBack(ss, es, j) > ss[0].heapEnd - ss[0].heapStart
  {
    StartIsOldNext(ss, es, j, k);
    WordAccount(ss, es, j);
    RunKeepsInv(ss, es, k);
    assert Stepped(ss[k], es[k], ss[k + 1]);
  }

  // ---------------------------------------------------------------- out of memory for good

  /**
   * Once a positive-size allocation has returned null (event `n`), every allocation that
   * starts later returns null, whatever is freed or in flight.
   */
  lemma {:induction false} NullForever(ss: seq<State>, es: seq<Event>, n: nat, j: nat, k: nat)
    requires IsRun(ss, es) && n < j
    requires n < |es| && Enabled(ss[n], es[n]) && ReturnsNull(ss[n], es[n]) && ss[n].cells[es[n].id].size > 0
    requires AllocSpans(ss, es, j, k)
    ensures Enabled(ss[k], es[k]) && ReturnsNull(ss[k], es[k])
  {
    RunKeepsInv(ss, es, n);
    NullRaisesBarrier(ss[n], es[n]);
    BarrierRemains(ss, es, n, j, ss[n].cells[es[n].id].ptr, ss[n].cells[es[n].id].End());
    StartIsOldNext(ss, es, j, k);
    RunKeepsInv(ss, es, j);
    RunKeepsInv(ss, es, k);
    assert Stepped(ss[k], es[k], ss[k + 1]);
  }
}
