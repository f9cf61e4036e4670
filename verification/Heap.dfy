/** Setting up the kernel heap: its pages, and what that means for the blocks handed out. */
module Heap {
  import opened Prelude
  import opened Bits
  import opened Paging
  import opened Frames
  import opened Mapping
  import opened Loader
  import opened Bump
  import opened UserMemory
  import Sequential = BumpSequential

  const HEAP_END: nat := HEAP_START + HEAP_SIZE

  /** Present and writable, for the kernel only. */
  const HEAP_FLAGS: Flags := Flags(false, true, false)

  function Uniform(first: nat, last: nat, flags: Flags): (plan: map<nat, Flags>)
    ensures plan.Keys == Span(first, last)
  {
    map p | p in Span(first, last) :: flags
  }

  /** Every byte of a range is on a page with the given flags, and the pages have frames of their own. */
  ghost predicate Backed(pages: PageMap, start: nat, end: nat, flags: Flags) {
    && (forall a: nat :: start <= a < end ==> PageOf(a) in pages && pages[PageOf(a)].flags == flags)
    && (forall a: nat, b: nat :: start <= a < end && start <= b < end && PageOf(a) != PageOf(b) ==>
          PageOf(a) in pages && PageOf(b) in pages && pages[PageOf(a)].frame != pages[PageOf(b)].frame)
  }

  lemma {:induction false} MappedRangeIsBacked(was: PageMap, pages: PageMap, start: nat, end: nat, flags: Flags,
                            usable: seq<nat>, lo: nat, next: nat, idx: map<nat, nat>)
    requires start < end && flags.writable && Distinct(usable)
    requires var first, last := PageOf(start), PageOf(end - 1);
      Progress(was, pages, Uniform(first, last, flags), Span(first, last), usable, lo, next, idx)
    ensures Backed(pages, start, end, flags) && Extends(was, pages, Span(PageOf(start), PageOf(end - 1)))
  {
  }

  /** Maps the heap, one page after the other as the loader does, and hands its range to the allocator. */
  method InitKernelHeap(space: AddressSpace, frames: BootInfoFrameAllocator,
                        heap: Sequential.BumpAllocator) returns (ok: bool)
    requires frames.Valid() && Distinct(frames.usable)
    modifies space`pages, frames`next, heap
    ensures var heapPages := Span(PageOf(HEAP_START), PageOf(HEAP_END - 1));
      && (ok <==>
            && heapPages !! old(space.pages).Keys
            && Cost(space.tables, old(space.pages).Keys, heapPages) <= old(frames.Left()))
      && (ok ==> Extends(old(space.pages), space.pages, heapPages))
    ensures ok ==>
      && Backed(space.pages, HEAP_START, HEAP_END, HEAP_FLAGS)
      && heap.heapStart == HEAP_START && heap.heapEnd == HEAP_END
      && Bump.Init(State(heap.heapStart, heap.heapEnd, heap.next, map[]))
  {
    ghost var was, lo := space.pages, frames.next;
    var first, last := PageOf(HEAP_START), PageOf(HEAP_END - 1);
    var mapped, idx := MapPages(space, frames, Uniform(first, last, HEAP_FLAGS));
    if !mapped { return false; }
    MappedRangeIsBacked(was, space.pages, HEAP_START, HEAP_END, HEAP_FLAGS, frames.usable, lo, frames.next, idx);
    heap.Init(HEAP_START, HEAP_SIZE);
    ok := true;
  }

  /** What the mapper says about a page map. */
  function TableOf(pages: PageMap): PageTable {
    map p | p in pages :: Mapped(pages[p].flags)
  }

  /** The heap is closed to users: no system call is granted a buffer with a byte of the heap in it. */
  lemma {:induction false} HeapIsPrivate(pages: PageMap, ptr: Word, bytes: Word, access: Access, a: nat)
    requires Backed(pages, HEAP_START, HEAP_END, HEAP_FLAGS)
    requires ptr <= a < ptr + bytes && HEAP_START <= a < HEAP_END
    ensures !SliceOf(TableOf(pages), ptr, bytes, access).Slice?
  {
    SliceMeans(TableOf(pages), ptr, bytes, access);
    assert PageOf(a) in pages && pages[PageOf(a)].flags == HEAP_FLAGS;
  }

  /** The kernel can write every byte of the heap. */
  lemma {:induction false} HeapIsWritable(pages: PageMap, a: nat)
    requires Backed(pages, HEAP_START, HEAP_END, HEAP_FLAGS) && HEAP_START <= a < HEAP_END
    ensures Writable(pages, a)
  {
  }

  /** Every byte of every block in use, except those past the heap end, is on a writable kernel page. */
  lemma {:induction false} BlocksAreBacked(pages: PageMap, ss: seq<State>, es: seq<Event>, i: nat, id: nat, x: nat)
    requires Backed(pages, HEAP_START, HEAP_END, HEAP_FLAGS)
    requires Bump.IsRun(ss, es) && i <= |es| && ss[0].heapStart == HEAP_START && ss[0].heapEnd == HEAP_END
    requires id in ss[i].cells && Contains(ss[i].cells[id], x)
    ensures x < HEAP_END ==> PageOf(x) in pages && pages[PageOf(x)].flags == HEAP_FLAGS
  {
    RunKeepsInv(ss, es, i);
    assert CellOk(ss[i], ss[i].cells[id]);
  }
}
