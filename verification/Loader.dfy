/** `elf::load`: from program headers to a mapped, filled and protected image. */
module Loader {
  import opened Prelude
  import opened Bits
  import opened Paging
  import opened Frames
  import opened Mapping
  import opened Elf

  // ---------------------------------------------------------------- when loading does not panic

  predicate AllParse(hs: seq<ProgramHeader>) {
    forall i :: 0 <= i < |hs| && Kept(hs[i]) ==> Parses(hs[i])
  }

  /** The shifted address fits a signed word and is canonical. */
  predicate CanShift(a: Word, delta: int) {
    -0x8000_0000_0000_0000 <= Signed(a) + delta <= ISIZE_MAX && Canonical(Shift(a, delta))
  }

  predicate CanShiftAll(segs: seq<Segment>, delta: int) {
    forall i :: 0 <= i < |segs| ==> CanShift(segs[i].start, delta)
  }

  /** The pages up to the one of `start + len` all have canonical addresses. */
  predicate Mappable(s: Segment) {
    s.start + s.len < LOW_END || HIGH_START <= s.start <= s.start + s.len < WORD
  }

  predicate AllMappable(segs: seq<Segment>) {
    forall i :: 0 <= i < |segs| ==> Mappable(segs[i])
  }

  /** What the ELF format demands of a Load header that takes memory. */
  predicate FileFitsMemory(hs: seq<ProgramHeader>) {
    forall i :: 0 <= i < |hs| && Kept(hs[i]) && hs[i].pType == PT_LOAD ==> hs[i].filesz <= hs[i].memsz
  }

  // ---------------------------------------------------------------- parsing and shifting

  method ParseHeaders(hs: seq<ProgramHeader>) returns (r: Option<seq<Segment>>)
    ensures r.Some? <==> AllParse(hs)
    ensures r.Some? <==>
      forall i :: 0 <= i < |hs| && hs[i].memsz != 0 && (hs[i].pType == PT_LOAD || hs[i].pType in OTHER_TYPES) ==>
        Canonical(hs[i].vaddr) && hs[i].offset + hs[i].filesz < WORD
    ensures r.Some? ==> r.value == Segments(hs)
  {
    var segments: seq<Segment> := [];
    for i := 0 to |hs|
      invariant AllParse(hs[..i]) && segments == Segments(hs[..i])
    {
      assert hs[..i + 1][..i] == hs[..i];
      var h := hs[i];
      if h.pType != PT_NULL && h.pType != PT_LOAD && h.pType !in OTHER_TYPES { continue; }
      if h.pType == PT_NULL { continue; }
      if h.memsz == 0 { continue; }
      if !Canonical(h.vaddr) || h.offset + h.filesz >= WORD { return None; }
      segments := segments + [ToSegment(h)];
    }
    assert hs[..|hs|] == hs;
    r := Some(segments);
  }

  method FindText(segs: seq<Segment>) returns (r: Option<Word>)
    ensures r == TextBase(segs)
    ensures r.None? <==> forall j :: 0 <= j < |segs| ==> segs[j].flags.noExec
    ensures r.Some? ==> exists k :: IsText(segs, k) && segs[k].start == r.value
  {
    TextBaseMeans(segs);
    r := None;
    for i := 0 to |segs|
      invariant r == TextBase(segs[..i])
    {
      assert segs[..i + 1][..i] == segs[..i];
      if !segs[i].flags.noExec { r := Some(segs[i].start); }
    }
    assert segs[..|segs|] == segs;
  }

  class ElfFile {
    var segments: seq<Segment>
    var entryPoint: Word

    constructor (segments: seq<Segment>, entryPoint: Word)
      ensures this.segments == segments && this.entryPoint == entryPoint
    {
      this.segments := segments;
      this.entryPoint := entryPoint;
    }

    /** Moves the entry point and every segment, keeping everything else. */
    method Remap(delta: int) returns (ok: bool)
      modifies this
      ensures ok <==> CanShift(old(entryPoint), delta) && CanShiftAll(old(segments), delta)
      ensures ok ==> entryPoint == Shift(old(entryPoint), delta) && segments == ShiftedAll(old(segments), delta)
    {
      if !CanShift(entryPoint, delta) { return false; }
      entryPoint := Shift(entryPoint, delta);
      for i := 0 to |segments|
        invariant |segments| == |old(segments)| && entryPoint == Shift(old(entryPoint), delta)
        invariant CanShiftAll(old(segments)[..i], delta)
        invariant forall j :: 0 <= j < |segments| ==>
          segments[j] == if j < i then Shifted(old(segments)[j], delta) else old(segments)[j]
      {
        if !CanShift(segments[i].start, delta) { return false; }
        segments := segments[i := Shifted(segments[i], delta)];
      }
      ok := true;
    }
  }

  // ---------------------------------------------------------------- planning pages

  function Get(plan: map<nat, Flags>, page: nat): (r: Option<Flags>) {
    if page in plan then Some(plan[page]) else None
  }

  method PlanPages(segs: seq<Segment>) returns (r: Option<map<nat, Flags>>)
    ensures r.Some? <==> AllMappable(segs)
    ensures r.Some? ==> forall p: nat :: Get(r.value, p) == PageFlags(ByPages, segs, p)
  {
    var plan: map<nat, Flags> := map[];
    for i := 0 to |segs|
      invariant AllMappable(segs[..i])
      invariant forall p: nat :: Get(plan, p) == PageFlags(ByPages, segs[..i], p)
    {
      var s := segs[i];
      if !Mappable(s) { return None; }
      ghost var before := plan;
      var first, last := s.FirstPage(), s.LastPage();
      for page := first to last + 1
        invariant forall p: nat :: Get(plan, p) == if first <= p < page then Planned(before, s, p) else Get(before, p)
      {
        plan := plan[page := if page in plan then Merge(plan[page], s.flags) else s.flags];
      }
      assert segs[..i + 1][..i] == segs[..i];
    }
    assert segs[..|segs|] == segs;
    r := Some(plan);
  }

  /** The entry of a covered page once segment `s` has been merged in. */
  function Planned(before: map<nat, Flags>, s: Segment, page: nat): (r: Option<Flags>) {
    if page in before then Some(Merge(before[page], s.flags)) else Some(s.flags)
  }

  // ---------------------------------------------------------------- mapping

  /** The new pages got frames of the allocator's list, positions ascending with the page. */
  ghost predicate FramesAscend(pages: PageMap, part: set<nat>, frames: seq<nat>, lo: nat, hi: nat, idx: map<nat, nat>) {
    && part <= pages.Keys && idx.Keys == part
    && (forall p :: p in part ==> lo <= idx[p] < hi && idx[p] < |frames| && pages[p].frame == frames[idx[p]])
    && (forall p, q :: p in part && q in part && p < q ==> idx[p] < idx[q])
  }

  /** `pages` is `was` with the pages of `part` added. */
  ghost predicate Extends(was: PageMap, pages: PageMap, part: set<nat>) {
    pages.Keys == was.Keys + part && forall p :: p in was ==> pages[p] == was[p]
  }

  /** One page of the mapping loop: a frame for it, then the page tables, then the entry. */
  method MapOne(space: AddressSpace, allocator: BootInfoFrameAllocator, page: nat, flags: Flags) returns (ok: bool)
    requires allocator.Valid()
    modifies space`pages, allocator`next
    ensures ok <==> page !in old(space.pages) && 1 + space.tables(old(space.pages).Keys, page) <= old(allocator.Left())
    ensures old(allocator.next) <= allocator.next
    ensures ok ==>
      && allocator.next == old(allocator.next) + 1 + space.tables(old(space.pages).Keys, page)
      && old(allocator.next) < |allocator.usable|
      && space.pages == old(space.pages)[page := Entry(allocator.usable[old(allocator.next)], flags)]
  {
    var frame := allocator.AllocateFrame();
    if frame.None? { return false; }
    ok := space.MapTo(page, frame.value, flags, allocator);
  }

  lemma {:induction false} AscendStep(pages: PageMap, part: set<nat>, frames: seq<nat>, lo: nat, at: nat, hi: nat,
                   idx: map<nat, nat>, page: nat, flags: Flags)
    requires FramesAscend(pages, part, frames, lo, at, idx) && lo <= at < hi && at < |frames|
    requires page !in pages && forall p :: p in part ==> p < page
    ensures FramesAscend(pages[page := Entry(frames[at], flags)], part + {page}, frames, lo, hi, idx[page := at])
  {
  }

  /** The next key of an ordered map. */
  method Smallest(s: set<nat>) returns (page: nat)
    requires s != {}
    ensures IsSmallest(page, s)
  {
    ghost var m := Min(s);
    page :| page in s && IsSmallest(page, s);
  }

  /** What the mapping loop has established when the pages of `done` are mapped. */
  ghost predicate MappedSoFar(was: PageMap, pages: PageMap, plan: map<nat, Flags>, done: set<nat>) {
    && done <= plan.Keys && done !! was.Keys && Extends(was, pages, done)
    && forall p :: p in done ==> pages[p].flags == plan[p].(writable := true)
  }

  lemma {:induction false} MappedStep(was: PageMap, pages: PageMap, plan: map<nat, Flags>, done: set<nat>, page: nat,
                                      frame: nat)
    requires MappedSoFar(was, pages, plan, done) && page in plan && page !in pages
    ensures MappedSoFar(was, pages[page := Entry(frame, plan[page].(writable := true))], plan, done + {page})
  {
  }

  ghost predicate Below(done: set<nat>, todo: set<nat>) {
    forall p, q :: p in done && q in todo ==> p < q
  }

  lemma {:induction false} BelowStep(done: set<nat>, todo: set<nat>, page: nat)
    requires Below(done, todo) && IsSmallest(page, todo)
    ensures Below(done + {page}, todo - {page})
    ensures (done + {page}) + (todo - {page}) == done + todo
    ensures page !in done && forall p :: p in done ==> p < page
  {
  }

  /** A page's place in the frame list comes after all that the pages below it cost. */
  ghost predicate Positions(tables: Tables, mapped: set<nat>, done: set<nat>, lo: nat, next: nat, idx: map<nat, nat>) {
    && next == lo + Cost(tables, mapped, done)
    && forall p {:trigger PositionOf(tables, mapped, done, lo, idx, p)} :: p in done ==>
      PositionOf(tables, mapped, done, lo, idx, p)
  }

  ghost predicate PositionOf(tables: Tables, mapped: set<nat>, done: set<nat>, lo: nat, idx: map<nat, nat>, p: nat) {
    p in idx && idx[p] == lo + Cost(tables, mapped, Lower(done, p))
  }

  lemma {:induction false} PositionStep(tables: Tables, mapped: set<nat>, done: set<nat>, lo: nat, next: nat,
                                        idx: map<nat, nat>, page: nat)
    requires Positions(tables, mapped, done, lo, next, idx) && forall p :: p in done ==> p < page
    ensures Positions(tables, mapped, done + {page}, lo, next + 1 + tables(mapped + done, page), idx[page := next])
  {
    CostAppend(tables, mapped, done, page);
    forall p | p in done + {page}
      ensures PositionOf(tables, mapped, done + {page}, lo, idx[page := next], p)
    {
      if p != page { assert PositionOf(tables, mapped, done, lo, idx, p); }
      assert Lower(done + {page}, p) == if p == page then done else Lower(done, p);
    }
  }

  /** The pages of `done` are mapped as planned, to frames of the list from position `lo` on. */
  ghost predicate Progress(was: PageMap, pages: PageMap, plan: map<nat, Flags>, done: set<nat>,
                           usable: seq<nat>, lo: nat, next: nat, idx: map<nat, nat>) {
    lo <= next && MappedSoFar(was, pages, plan, done) && FramesAscend(pages, done, usable, lo, next, idx)
  }

  /** One turn of the loop, with what it adds to the bookkeeping of the pages done. */
  method MapNext(space: AddressSpace, allocator: BootInfoFrameAllocator, page: nat, flags: Flags,
                 ghost plan: map<nat, Flags>,
                 ghost was: PageMap, ghost done: set<nat>, ghost lo: nat, ghost idx: map<nat, nat>)
    returns (ok: bool)
    requires allocator.Valid() && page in plan && flags == plan[page].(writable := true)
    requires Progress(was, space.pages, plan, done, allocator.usable, lo, allocator.next, idx)
    requires forall p :: p in done ==> p < page
    modifies space`pages, allocator`next
    ensures ok <==> page !in was && 1 + space.tables(old(space.pages).Keys, page) <= old(allocator.Left())
    ensures ok ==>
      && space.pages.Keys == old(space.pages).Keys + {page}
      && allocator.Left() == old(allocator.Left()) - 1 - space.tables(old(space.pages).Keys, page)
      && allocator.next == old(allocator.next) + 1 + space.tables(old(space.pages).Keys, page)
      && Progress(was, space.pages, plan, done + {page}, allocator.usable, lo, allocator.next, idx[page := old(allocator.next)])
  {
    ghost var pages, at := space.pages, allocator.next;
    ok := MapOne(space, allocator, page, flags);
    if ok {
      MappedStep(was, pages, plan, done, page, allocator.usable[at]);
      AscendStep(pages, done, allocator.usable, lo, at, allocator.next, idx, page, flags);
    }
  }

  method MapPages(space: AddressSpace, allocator: BootInfoFrameAllocator, plan: map<nat, Flags>)
    returns (ok: bool, ghost idx: map<nat, nat>)
    requires allocator.Valid()
    modifies space`pages, allocator`next
    ensures ok <==>
      && plan.Keys !! old(space.pages).Keys
      && Cost(space.tables, old(space.pages).Keys, plan.Keys) <= old(allocator.Left())
    ensures ok ==> Progress(old(space.pages), space.pages, plan, plan.Keys, allocator.usable, old(allocator.next), allocator.next, idx)
    ensures ok ==> Positions(space.tables, old(space.pages).Keys, plan.Keys, old(allocator.next), allocator.next, idx)
  {
    var todo := plan.Keys;
    idx := map[];
    ghost var lo, done := allocator.next, {};
    ghost var was, enough := space.pages, Cost(space.tables, space.pages.Keys, todo) <= allocator.Left();
    while todo != {}
      invariant plan.Keys == done + todo
      invariant enough <==> Cost(space.tables, space.pages.Keys, todo) <= allocator.Left()
      invariant Progress(was, space.pages, plan, done, allocator.usable, lo, allocator.next, idx)
      invariant Below(done, todo)
      invariant space.pages.Keys == was.Keys + done && Positions(space.tables, was.Keys, done, lo, allocator.next, idx)
      decreases todo
    {
      var page := Smallest(todo);
      CostStep(space.tables, space.pages.Keys, todo, page);
      BelowStep(done, todo, page);
      ghost var at := allocator.next;
      var mapped := MapNext(space, allocator, page, plan[page].(writable := true), plan, was, done, lo, idx);
      if !mapped { return false, idx; }
      PositionStep(space.tables, was.Keys, done, lo, at, idx, page);
      todo, done, idx := todo - {page}, done + {page}, idx[page := at];
    }
    assert done == plan.Keys;
    ok := true;
  }

  // ---------------------------------------------------------------- copying

  function Content(image: Option<Byte>, before: Byte): (b: Byte) {
    if image.Some? then image.value else before
  }

  /** Every byte of the new pages is the image's, or what the frame held where the image has none. */
  ghost predicate Filled(pages: PageMap, part: set<nat>, before: Ram, phys: Ram,
                         segs: seq<Segment>, bytes: seq<Byte>)
    requires part <= pages.Keys && InFile(segs, bytes)
  {
    forall a: nat :: PageOf(a) in part ==>
      phys(Translate(pages, a)) == Content(Image(segs, bytes, a), before(Translate(pages, a)))
  }

  /** The pages of all file bytes are in the set. */
  ghost predicate BackedIn(segs: seq<Segment>, part: set<nat>) {
    forall i, a: nat :: 0 <= i < |segs| && segs[i].Backs(a) ==> PageOf(a) in part
  }

  /** Physical memory after the file bytes of the Load segments have been stored in header order. */
  function WriteImage(pages: PageMap, phys: Ram, segs: seq<Segment>, bytes: seq<Byte>): Ram
    requires InFile(segs, bytes)
  {
    if segs == [] then phys
    else
      var last, before := segs[|segs| - 1], WriteImage(pages, phys, segs[..|segs| - 1], bytes);
      if last.ty == PT_LOAD then StoreAll(pages, before, last.start, bytes[last.fileStart..last.fileEnd]) else before
  }

  /** Every file byte goes to a writable page. */
  ghost predicate AllWritable(pages: PageMap, segs: seq<Segment>) {
    forall i, a: nat :: 0 <= i < |segs| && segs[i].Backs(a) ==> Writable(pages, a)
  }

  /** Copies the Load segments; panics on a range outside the file, faults outside writable pages. */
  method CopySegments(space: AddressSpace, segs: seq<Segment>, bytes: seq<Byte>) returns (ok: bool)
    modifies space`phys
    ensures ok <==> InFile(segs, bytes) && AllWritable(space.pages, segs)
    ensures ok ==> space.phys == WriteImage(space.pages, old(space.phys), segs, bytes)
  {
    for i := 0 to |segs|
      invariant InFile(segs[..i], bytes) && AllWritable(space.pages, segs[..i])
      invariant space.phys == WriteImage(space.pages, old(space.phys), segs[..i], bytes)
    {
      assert segs[..i + 1][..i] == segs[..i];
      var s := segs[i];
      if s.ty == PT_LOAD {
        if !(s.fileStart <= s.fileEnd <= |bytes|) { return false; }
        ok := space.CopyTo(s.start, bytes[s.fileStart..s.fileEnd]);
        CopyIsBacking(space.pages, segs, i, bytes);
        if !ok { return; }
      }
    }
    assert segs[..|segs|] == segs;
    ok := true;
  }

  lemma {:induction false} CopyIsBacking(pages: PageMap, segs: seq<Segment>, i: nat, bytes: seq<Byte>)
    requires i < |segs| && segs[i].ty == PT_LOAD && segs[i].fileStart <= segs[i].fileEnd <= |bytes|
    ensures (forall a: nat :: segs[i].start <= a < segs[i].start + |bytes[segs[i].fileStart..segs[i].fileEnd]| ==>
      Writable(pages, a))
      <==> (forall a: nat :: segs[i].Backs(a) ==> Writable(pages, a))
  {
    assert forall a: nat :: segs[i].Backs(a) <==>
      segs[i].start <= a < segs[i].start + |bytes[segs[i].fileStart..segs[i].fileEnd]|;
  }

  lemma {:induction false} FillNext(pages: PageMap, part: set<nat>, before: Ram, phys: Ram, segs: seq<Segment>,
                                    bytes: seq<Byte>)
    requires segs != [] && InFile(segs, bytes) && BackedIn(segs, part) && part <= pages.Keys && Injective(pages, part)
    requires Filled(pages, part, before, phys, segs[..|segs| - 1], bytes) && SameOutside(pages, part, before, phys)
    requires segs[|segs| - 1].ty == PT_LOAD
    ensures var s := segs[|segs| - 1]; var now := StoreAll(pages, phys, s.start, bytes[s.fileStart..s.fileEnd]);
      Filled(pages, part, before, now, segs, bytes) && SameOutside(pages, part, before, now)
  {
    var s := segs[|segs| - 1];
    var data := bytes[s.fileStart..s.fileEnd];
    forall a: nat | s.start <= a < s.start + |data|
      ensures PageOf(a) in part
    {
      assert s.Backs(a);
    }
    StoreAllCopies(pages, part, phys, s.start, data);
    FillOver(pages, part, before, phys, StoreAll(pages, phys, s.start, data), segs, bytes);
  }

  lemma {:induction false} FillOver(pages: PageMap, part: set<nat>, before: Ram, phys: Ram, now: Ram,
                 segs: seq<Segment>, bytes: seq<Byte>)
    requires segs != [] && InFile(segs, bytes) && part <= pages.Keys && segs[|segs| - 1].ty == PT_LOAD
    requires Filled(pages, part, before, phys, segs[..|segs| - 1], bytes)
    requires var s := segs[|segs| - 1]; Copied(pages, part, s.start, bytes[s.fileStart..s.fileEnd], phys, now)
    ensures Filled(pages, part, before, now, segs, bytes)
  {
    var s := segs[|segs| - 1];
    forall a: nat | PageOf(a) in part
      ensures now(Translate(pages, a)) == Content(Image(segs, bytes, a), before(Translate(pages, a)))
    {
      assert s.Backs(a) <==> s.start <= a < s.start + (s.fileEnd - s.fileStart);
    }
  }

  /** On pages with frames of their own that take all file bytes, the result is the image over what the frames held. */
  lemma {:induction false} WriteImageFills(pages: PageMap, part: set<nat>, phys: Ram, segs: seq<Segment>,
                                           bytes: seq<Byte>)
    requires InFile(segs, bytes) && BackedIn(segs, part) && part <= pages.Keys && Injective(pages, part)
    ensures Filled(pages, part, phys, WriteImage(pages, phys, segs, bytes), segs, bytes)
    ensures SameOutside(pages, part, phys, WriteImage(pages, phys, segs, bytes))
  {
    if segs != [] {
      var front := segs[..|segs| - 1];
      WriteImageFills(pages, part, phys, front, bytes);
      if segs[|segs| - 1].ty == PT_LOAD { FillNext(pages, part, phys, WriteImage(pages, phys, front, bytes), segs, bytes); }
    }
  }

  lemma {:induction false} WriteImageByFrames(pages: PageMap, others: PageMap, phys: Ram, segs: seq<Segment>,
                                              bytes: seq<Byte>)
    requires InFile(segs, bytes) && SameFrames(pages, others)
    ensures WriteImage(pages, phys, segs, bytes) == WriteImage(others, phys, segs, bytes)
  {
    if segs != [] {
      var last, front := segs[|segs| - 1], segs[..|segs| - 1];
      WriteImageByFrames(pages, others, phys, front, bytes);
      if last.ty == PT_LOAD {
        StoreAllByFrames(pages, others, WriteImage(pages, phys, front, bytes), last.start, bytes[last.fileStart..last.fileEnd]);
      }
    }
  }

  // ---------------------------------------------------------------- protecting

  /** The pages of `done` have their planned flags; nothing else differs from `mapped`. */
  ghost predicate Protected(mapped: PageMap, pages: PageMap, plan: map<nat, Flags>, done: set<nat>) {
    && pages.Keys == mapped.Keys && done <= plan.Keys <= pages.Keys
    && forall p :: p in pages ==> pages[p] == if p in done then Entry(mapped[p].frame, plan[p]) else mapped[p]
  }

  /** Drops the write permission that was only there for copying. */
  method RestoreFlags(space: AddressSpace, plan: map<nat, Flags>)
    requires plan.Keys <= space.pages.Keys
    requires forall p :: p in plan ==> space.pages[p].flags == plan[p].(writable := true)
    modifies space`pages
    ensures Protected(old(space.pages), space.pages, plan, plan.Keys)
  {
    ghost var mapped, done := space.pages, {};
    var todo := plan.Keys;
    while todo != {}
      invariant done + todo == plan.Keys
      invariant Protected(mapped, space.pages, plan, done)
      decreases todo
    {
      var page := Smallest(todo);
      if !plan[page].writable {
        space.UpdateFlags(page, plan[page]);
      } else {
        assert plan[page] == plan[page].(writable := true);
      }
      todo, done := todo - {page}, done + {page};
    }
    assert done == plan.Keys;
  }

  // ---------------------------------------------------------------- the whole of it

  function PageSet(segs: seq<Segment>): (r: set<nat>) {
    if segs == [] then {}
    else PageSet(segs[..|segs| - 1]) + Span(segs[|segs| - 1].FirstPage(), segs[|segs| - 1].LastPage())
  }

  function Span(first: nat, last: nat): (r: set<nat>)
    ensures forall p: nat :: p in r <==> first <= p <= last
    decreases last - first
  {
    if first > last then {} else {first} + Span(first + 1, last)
  }

  lemma {:induction false} PageSetIsCovered(segs: seq<Segment>, page: nat)
    ensures page in PageSet(segs) <==> Covered(ByPages, segs, page)
  {
    if segs != [] {
      PageSetIsCovered(segs[..|segs| - 1], page);
      SplitLast(ByPages, segs, page);
    } else {
      assert forall i :: !CoveredBy(ByPages, segs, page, i);
    }
  }

  lemma {:induction false} PlanIsPageSet(segs: seq<Segment>, plan: map<nat, Flags>)
    requires forall p: nat :: Get(plan, p) == PageFlags(ByPages, segs, p)
    ensures plan.Keys == PageSet(segs)
  {
    forall p: nat
      ensures p in plan.Keys <==> p in PageSet(segs)
    {
      assert Get(plan, p) == PageFlags(ByPages, segs, p);
      UnionOfBits(ByPages, segs, p);
      PageSetIsCovered(segs, p);
    }
  }

  lemma {:induction false} PageMonotone(a: nat, b: nat)
    requires a <= b
    ensures PageOf(a) <= PageOf(b)
  {
  }

  lemma {:induction false} OnImagePage(segs: seq<Segment>, k: nat, a: nat)
    requires k < |segs| && segs[k].start <= a < segs[k].start + segs[k].len
    ensures PageOf(a) in PageSet(segs)
  {
    PageMonotone(segs[k].start, a);
    PageMonotone(a, segs[k].start + segs[k].len);
    assert CoveredBy(ByPages, segs, PageOf(a), k);
    PageSetIsCovered(segs, PageOf(a));
  }

  /** File bytes no longer than the memory range lie on the pages of the segment. */
  lemma {:induction false} BackedIsCovered(segs: seq<Segment>)
    requires forall i :: 0 <= i < |segs| && segs[i].ty == PT_LOAD ==> segs[i].FileLen() <= segs[i].len
    ensures BackedIn(segs, PageSet(segs))
  {
    forall i, a: nat | 0 <= i < |segs| && segs[i].Backs(a)
      ensures PageOf(a) in PageSet(segs)
    {
      OnImagePage(segs, i, a);
    }
  }

  lemma {:induction false} LoadSegmentsFit(hs: seq<ProgramHeader>, delta: int)
    requires FileFitsMemory(hs)
    ensures forall i :: 0 <= i < |ShiftedAll(Segments(hs), delta)| && ShiftedAll(Segments(hs), delta)[i].ty == PT_LOAD ==>
      ShiftedAll(Segments(hs), delta)[i].FileLen() <= ShiftedAll(Segments(hs), delta)[i].len
  {
    var segs := Segments(hs);
    forall i | 0 <= i < |segs| && segs[i].ty == PT_LOAD
      ensures segs[i].FileLen() <= segs[i].len
    {
      SegmentsFromHeaders(hs, segs[i]);
      var j :| 0 <= j < |hs| && Kept(hs[j]) && Describes(hs[j], segs[i]);
    }
  }

  lemma {:induction false} AscendingFramesAreDistinct(pages: PageMap, part: set<nat>, frames: seq<nat>, lo: nat,
                                                      hi: nat, idx: map<nat, nat>)
    requires FramesAscend(pages, part, frames, lo, hi, idx) && Distinct(frames)
    ensures Injective(pages, part)
  {
  }

  function Delta(segs: seq<Segment>): (d: int)
    requires TextBase(segs).Some?
  {
    LOAD_TEXT_SECTION_AT - Signed(TextBase(segs).value)
  }

  /** The segments at the addresses they are loaded to. */
  function Placed(hs: seq<ProgramHeader>): (segs: seq<Segment>)
    requires TextBase(Segments(hs)).Some?
  {
    ShiftedAll(Segments(hs), Delta(Segments(hs)))
  }

  /** Every file byte goes to a page of the image, or else to a writable page that was there before. */
  ghost predicate FileBytesFit(segs: seq<Segment>, pages: PageMap) {
    forall i, a: nat :: 0 <= i < |segs| && segs[i].Backs(a) ==> PageOf(a) in PageSet(segs) || Writable(pages, a)
  }

  /** Exactly when loading neither panics nor faults. */
  ghost predicate CanLoad(hs: seq<ProgramHeader>, entry: Word, bytes: seq<Byte>, pages: PageMap,
                          tables: Tables, left: nat) {
    && CanPlace(hs, entry) && AllMappable(Placed(hs))
    && PageSet(Placed(hs)) !! pages.Keys && Cost(tables, pages.Keys, PageSet(Placed(hs))) <= left
    && InFile(Placed(hs), bytes) && FileBytesFit(Placed(hs), pages)
  }

  /** A page map with the physical memory behind it. */
  datatype Memory = Memory(pages: PageMap, phys: Ram) {
    ghost function Read(a: nat): Byte
      requires PageOf(a) in pages
    {
      phys(Translate(pages, a))
    }
  }

  /** The memory before and after a load, the frames still to be handed out before it, and what was loaded. */
  datatype Loading = Loading(was: Memory, spare: seq<nat>, tables: Tables, now: Memory, segs: seq<Segment>, bytes: seq<Byte>)

  /** The place in the list of spare frames that a page of the image gets. */
  ghost function FrameIndex(tables: Tables, pages: PageMap, segs: seq<Segment>, page: nat): (i: nat) {
    Cost(tables, pages.Keys, Lower(PageSet(segs), page))
  }

  /** A page of the image has the merged flags, and the spare frame that comes after all that lower pages cost. */
  ghost predicate PageLoaded(was: PageMap, spare: seq<nat>, tables: Tables, now: PageMap, segs: seq<Segment>, p: nat) {
    && p in now && Some(now[p].flags) == PageFlags(ByPages, segs, p)
    && FrameIndex(tables, was, segs, p) < |spare| && now[p].frame == spare[FrameIndex(tables, was, segs, p)]
  }

  ghost predicate PagesLoaded(was: PageMap, spare: seq<nat>, tables: Tables, now: PageMap, segs: seq<Segment>) {
    && Extends(was, now, PageSet(segs)) && PageSet(segs) !! was.Keys && Injective(now, PageSet(segs))
    && forall p {:trigger PageLoaded(was, spare, tables, now, segs, p)} :: p in PageSet(segs) ==>
      PageLoaded(was, spare, tables, now, segs, p)
  }

  /**
   * The memory after a successful load, in terms of the one before: the pages of the segments
   * are added, and the file bytes have been stored through the page map in header order.
   */
  ghost predicate Loaded(l: Loading) {
    && InFile(l.segs, l.bytes) && FileBytesFit(l.segs, l.was.pages)
    && PagesLoaded(l.was.pages, l.spare, l.tables, l.now.pages, l.segs)
    && l.now.phys == WriteImage(l.now.pages, l.was.phys, l.segs, l.bytes)
  }

  lemma {:induction false} FramesByPosition(tables: Tables, was: PageMap, mapped: PageMap, segs: seq<Segment>,
                         usable: seq<nat>, lo: nat, next: nat, idx: map<nat, nat>, p: nat)
    requires FramesAscend(mapped, PageSet(segs), usable, lo, next, idx)
      && Positions(tables, was.Keys, PageSet(segs), lo, next, idx)
    requires p in PageSet(segs)
    ensures FrameAt(tables, was, mapped, segs, Drop(usable, lo), p)
  {
    assert PositionOf(tables, was.Keys, PageSet(segs), lo, idx, p);
    var i := FrameIndex(tables, was, segs, p);
    assert idx[p] == lo + i && lo + i < |usable|;
    assert usable[lo..][i] == usable[lo + i];
  }

  ghost predicate FrameAt(tables: Tables, was: PageMap, mapped: PageMap, segs: seq<Segment>, spare: seq<nat>, p: nat) {
    p in mapped && FrameIndex(tables, was, segs, p) < |spare|
      && mapped[p].frame == spare[FrameIndex(tables, was, segs, p)]
  }

  lemma {:induction false} ProtectedIsLoaded(tables: Tables, was: PageMap, mapped: PageMap, now: PageMap,
                          segs: seq<Segment>, plan: map<nat, Flags>, spare: seq<nat>)
    requires plan.Keys == PageSet(segs) && (forall p: nat :: Get(plan, p) == PageFlags(ByPages, segs, p))
    requires PageSet(segs) !! was.Keys && Extends(was, mapped, PageSet(segs)) && Injective(mapped, PageSet(segs))
    requires forall p {:trigger FrameAt(tables, was, mapped, segs, spare, p)} :: p in PageSet(segs) ==>
      FrameAt(tables, was, mapped, segs, spare, p)
    requires Protected(mapped, now, plan, plan.Keys)
    ensures PagesLoaded(was, spare, tables, now, segs) && SameFrames(mapped, now)
  {
    forall p | p in PageSet(segs)
      ensures PageLoaded(was, spare, tables, now, segs, p)
    {
      assert Get(plan, p) == PageFlags(ByPages, segs, p);
      assert FrameAt(tables, was, mapped, segs, spare, p);
    }
  }

  /** Right after mapping, the pages of the image are writable and the earlier ones as before. */
  lemma {:induction false} FitsIsWritable(was: PageMap, mapped: PageMap, segs: seq<Segment>, plan: map<nat, Flags>)
    requires plan.Keys == PageSet(segs) && MappedSoFar(was, mapped, plan, plan.Keys)
    ensures AllWritable(mapped, segs) <==> FileBytesFit(segs, was)
  {
    forall a: nat
      ensures Writable(mapped, a) <==> PageOf(a) in PageSet(segs) || Writable(was, a)
    {
    }
  }

  /** The last three loops: map the plan, fill the pages, drop the extra write permission. */
  method Install(space: AddressSpace, allocator: BootInfoFrameAllocator, segs: seq<Segment>, plan: map<nat, Flags>,
                 bytes: seq<Byte>)
    returns (ok: bool)
    requires allocator.Valid() && Distinct(allocator.usable)
    requires forall p: nat :: Get(plan, p) == PageFlags(ByPages, segs, p)
    modifies space`pages, space`phys, allocator`next
    ensures ok <==>
      && PageSet(segs) !! old(space.pages).Keys
      && Cost(space.tables, old(space.pages).Keys, PageSet(segs)) <= old(allocator.Left())
      && InFile(segs, bytes) && FileBytesFit(segs, old(space.pages))
    ensures ok ==>
      Loaded(Loading(Memory(old(space.pages), old(space.phys)), old(allocator.Remaining()), space.tables,
                     Memory(space.pages, space.phys), segs, bytes))
  {
    PlanIsPageSet(segs, plan);
    ghost var was, before, lo := space.pages, space.phys, allocator.next;
    var done, idx := MapPages(space, allocator, plan);
    if !done { return false; }
    ghost var mapped := space.pages;
    FitsIsWritable(was, mapped, segs, plan);
    ok := CopySegments(space, segs, bytes);
    if !ok { return; }
    RestoreFlags(space, plan);
    AscendingFramesAreDistinct(mapped, PageSet(segs), allocator.usable, lo, allocator.next, idx);
    forall p | p in PageSet(segs)
      ensures FrameAt(space.tables, was, mapped, segs, Drop(allocator.usable, lo), p)
    {
      FramesByPosition(space.tables, was, mapped, segs, allocator.usable, lo, allocator.next, idx, p);
    }
    ProtectedIsLoaded(space.tables, was, mapped, space.pages, segs, plan, Drop(allocator.usable, lo));
    WriteImageByFrames(mapped, space.pages, before, segs, bytes);
  }

  /** Headers can be parsed, a text segment exists, and the whole image can be moved. */
  predicate CanPlace(hs: seq<ProgramHeader>, entry: Word) {
    && AllParse(hs) && Canonical(entry) && TextBase(Segments(hs)).Some?
    && CanShift(entry, Delta(Segments(hs))) && CanShiftAll(Segments(hs), Delta(Segments(hs)))
  }

  /** The first half of loading: parse, find the text segment, shift everything. */
  method Place(hs: seq<ProgramHeader>, entry: Word) returns (r: Option<ElfFile>)
    ensures r.Some? <==> CanPlace(hs, entry)
    ensures r.Some? ==>
      fresh(r.value) && r.value.segments == Placed(hs) && r.value.entryPoint == Shift(entry, Delta(Segments(hs)))
  {
    var parsed := ParseHeaders(hs);
    if parsed.None? || !Canonical(entry) { return None; }
    var elf := new ElfFile(parsed.value, entry);
    var text := FindText(elf.segments);
    if text.None? { return None; }
    var offset := LOAD_TEXT_SECTION_AT - Signed(text.value);
    var moved := elf.Remap(offset);
    if !moved { return None; }
    r := Some(elf);
  }

  method Load(hs: seq<ProgramHeader>, entry: Word, bytes: seq<Byte>, space: AddressSpace,
              allocator: BootInfoFrameAllocator)
    returns (r: Option<ElfFile>)
    requires allocator.Valid() && Distinct(allocator.usable)
    modifies space`pages, space`phys, allocator`next
    ensures r.Some? <==> CanLoad(hs, entry, bytes, old(space.pages), space.tables, old(allocator.Left()))
    ensures r.Some? ==>
      && fresh(r.value) && r.value.segments == Placed(hs) && r.value.entryPoint == Shift(entry, Delta(Segments(hs)))
      && Loaded(Loading(Memory(old(space.pages), old(space.phys)), old(allocator.Remaining()), space.tables,
                        Memory(space.pages, space.phys), Placed(hs), bytes))
  {
    var placed := Place(hs, entry);
    if placed.None? { return None; }
    var elf := placed.value;
    var plan := PlanPages(elf.segments);
    if plan.None? { return None; }
    var installed := Install(space, allocator, elf.segments, plan.value, bytes);
    if !installed { return None; }
    r := Some(elf);
  }

  // ---------------------------------------------------------------- what a loaded image means

  ghost predicate AllFit(segs: seq<Segment>) {
    forall j :: 0 <= j < |segs| && segs[j].ty == PT_LOAD ==> segs[j].FileLen() <= segs[j].len
  }

  /**
   * Pages with frames of their own that take all file bytes. The pages of the image are such a set
   * when the file bytes fit.
   */
  ghost predicate TakesFile(pages: PageMap, part: set<nat>, segs: seq<Segment>) {
    part <= pages.Keys && Injective(pages, part) && BackedIn(segs, part)
  }

  lemma {:induction false} ImagePagesTakeFile(l: Loading)
    requires Loaded(l) && AllFit(l.segs)
    ensures TakesFile(l.now.pages, PageSet(l.segs), l.segs)
  {
    BackedIsCovered(l.segs);
  }

  /** Every byte on such pages is the image's where the image has one, and otherwise what the frame held. */
  lemma {:induction false} ByteAfterLoad(l: Loading, part: set<nat>, a: nat)
    requires Loaded(l) && TakesFile(l.now.pages, part, l.segs) && PageOf(a) in part
    ensures l.now.Read(a) == Content(Image(l.segs, l.bytes, a), l.was.phys(Translate(l.now.pages, a)))
  {
    WriteImageFills(l.now.pages, part, l.was.phys, l.segs, l.bytes);
  }

  /** A file-backed byte that no later Load segment overwrites reads as the file's byte through the final page map. */
  lemma {:induction false} FileByteInPlace(l: Loading, part: set<nat>, k: nat, a: nat)
    requires Loaded(l) && TakesFile(l.now.pages, part, l.segs)
    requires k < |l.segs| && l.segs[k].Backs(a) && forall j :: k < j < |l.segs| ==> !l.segs[j].Backs(a)
    ensures PageOf(a) in l.now.pages && l.now.Read(a) == l.bytes[l.segs[k].fileStart + (a - l.segs[k].start)]
  {
    ByteAfterLoad(l, part, a);
    ImageOfSegment(l.segs, l.bytes, k, a);
  }

  // ---------------------------------------------------------------- by headers

  /** The address of a file byte, as the header gives it. */
  function WordAt(h: ProgramHeader, x: nat): (w: nat) {
    (h.vaddr + x) % WORD
  }

  predicate LoadHeader(h: ProgramHeader) {
    Kept(h) && h.pType == PT_LOAD
  }

  /** The file bytes of different Load headers have different addresses. */
  ghost predicate HeadersApart(hs: seq<ProgramHeader>) {
    forall i, j, x: nat, y: nat {:trigger WordAt(hs[i], x), WordAt(hs[j], y)} ::
      0 <= i < |hs| && 0 <= j < |hs| && i != j && LoadHeader(hs[i]) && LoadHeader(hs[j]) && x < hs[i].filesz
        && y < hs[j].filesz
      ==> WordAt(hs[i], x) != WordAt(hs[j], y)
  }

  /** The headers the segments come from. */
  function Origins(hs: seq<ProgramHeader>): (r: seq<nat>) {
    if hs == [] then []
    else Origins(hs[..|hs| - 1]) + (if Kept(hs[|hs| - 1]) then [|hs| - 1] else [])
  }

  lemma {:induction false} OriginsAscend(hs: seq<ProgramHeader>)
    ensures |Origins(hs)| == |Segments(hs)|
    ensures forall i :: 0 <= i < |Origins(hs)| ==>
      Origins(hs)[i] < |hs| && Kept(hs[Origins(hs)[i]]) && Describes(hs[Origins(hs)[i]], Segments(hs)[i])
    ensures forall i, j :: 0 <= i < j < |Origins(hs)| ==> Origins(hs)[i] < Origins(hs)[j]
    ensures forall j :: 0 <= j < |hs| && Kept(hs[j]) ==> j in Origins(hs)
  {
    if hs != [] {
      var n := |hs| - 1;
      OriginsAscend(hs[..n]);
      forall j | 0 <= j < |hs| && Kept(hs[j])
        ensures j in Origins(hs)
      {
        if j < n { assert hs[..n][j] == hs[j]; } else { assert Origins(hs)[|Origins(hs[..n])|] == n; }
      }
    }
  }

  /** The kept header covers the page, once the image has been moved by `delta`. */
  predicate HeaderCovers(hs: seq<ProgramHeader>, delta: int, page: nat, i: int) {
    && 0 <= i < |hs| && Kept(hs[i])
    && PageOf(Shift(hs[i].vaddr, delta)) <= page <= PageOf(Shift(hs[i].vaddr, delta) + hs[i].memsz)
  }

  /** Of the kept headers that cover the page, number `k` is the last. */
  ghost predicate LastHeader(hs: seq<ProgramHeader>, delta: int, page: nat, k: int) {
    HeaderCovers(hs, delta, page, k) && forall i :: HeaderCovers(hs, delta, page, i) ==> i <= k
  }

  /** Headers and the segments made from them cover the same pages. */
  lemma {:induction false} CoverOfHeader(hs: seq<ProgramHeader>, page: nat, i: nat) returns (k: nat)
    requires TextBase(Segments(hs)).Some? && HeaderCovers(hs, Delta(Segments(hs)), page, i)
    ensures k < |Origins(hs)| && Origins(hs)[k] == i && CoveredBy(ByPages, Placed(hs), page, k)
  {
    OriginsAscend(hs);
    k :| 0 <= k < |Origins(hs)| && Origins(hs)[k] == i;
  }

  lemma {:induction false} HeaderOfCover(hs: seq<ProgramHeader>, page: nat, k: int)
    requires TextBase(Segments(hs)).Some? && CoveredBy(ByPages, Placed(hs), page, k)
    ensures k < |Origins(hs)| && HeaderCovers(hs, Delta(Segments(hs)), page, Origins(hs)[k])
    ensures Describes(hs[Origins(hs)[k]], Segments(hs)[k]) && Placed(hs)[k].flags == Segments(hs)[k].flags
  {
    OriginsAscend(hs);
  }

  lemma {:induction false} CoversItsBytes(hs: seq<ProgramHeader>, delta: int, i: nat, x: nat)
    requires i < |hs| && Kept(hs[i]) && x < hs[i].memsz
    ensures HeaderCovers(hs, delta, PageOf(Shift(hs[i].vaddr, delta) + x), i)
  {
    var start := Shift(hs[i].vaddr, delta);
    PageMonotone(start, start + x);
    PageMonotone(start + x, start + hs[i].memsz);
  }

  /** The pages added by a load are those its headers cover. */
  lemma {:induction false} ImagePagesByHeaders(l: Loading, hs: seq<ProgramHeader>, page: nat)
    requires TextBase(Segments(hs)).Some? && Loaded(l) && l.segs == Placed(hs)
    ensures page in l.now.pages && page !in l.was.pages <==> exists i :: HeaderCovers(hs, Delta(Segments(hs)), page, i)
  {
    PageSetIsCovered(l.segs, page);
    if i :| HeaderCovers(hs, Delta(Segments(hs)), page, i) {
      var k := CoverOfHeader(hs, page, i);
    }
    if k :| CoveredBy(ByPages, l.segs, page, k) { HeaderOfCover(hs, page, k); }
  }

  /** The final permissions of every page of the image, and which pages these are, by the headers. */
  lemma {:induction false} PermissionsByHeaders(l: Loading, hs: seq<ProgramHeader>, page: nat)
    requires TextBase(Segments(hs)).Some? && Loaded(l) && l.segs == Placed(hs)
    ensures var d := Delta(Segments(hs));
      && (page in l.now.pages && page !in l.was.pages <==> exists i :: HeaderCovers(hs, d, page, i))
      && (page in l.now.pages && page !in l.was.pages ==>
            && (l.now.pages[page].flags.user <==> exists i :: HeaderCovers(hs, d, page, i) && Bit(hs[i].pFlags, 2))
            && (l.now.pages[page].flags.writable <==> exists i :: HeaderCovers(hs, d, page, i) && Bit(hs[i].pFlags, 1))
            && (exists k :: LastHeader(hs, d, page, k))
            && (forall k :: LastHeader(hs, d, page, k) ==> (l.now.pages[page].flags.noExec <==> !Bit(hs[k].pFlags, 0))))
  {
    ImagePagesByHeaders(l, hs, page);
    if i :| HeaderCovers(hs, Delta(Segments(hs)), page, i) {
      var k := CoverOfHeader(hs, page, i);
      assert Covered(ByPages, l.segs, page);
      var last := FinalPermissions(l, page);
      UserByHeaders(hs, page);
      WritableByHeaders(hs, page);
      LastByHeaders(hs, page, last);
    }
  }

  lemma {:induction false} UserByHeaders(hs: seq<ProgramHeader>, page: nat)
    requires TextBase(Segments(hs)).Some?
    ensures AnyUser(ByPages, Placed(hs), page) <==>
      exists i :: HeaderCovers(hs, Delta(Segments(hs)), page, i) && Bit(hs[i].pFlags, 2)
  {
    if k :| CoveredBy(ByPages, Placed(hs), page, k) && Placed(hs)[k].flags.user { HeaderOfCover(hs, page, k); }
    if i :| HeaderCovers(hs, Delta(Segments(hs)), page, i) && Bit(hs[i].pFlags, 2) {
      var k := CoverOfHeader(hs, page, i);
      HeaderOfCover(hs, page, k);
    }
  }

  lemma {:induction false} WritableByHeaders(hs: seq<ProgramHeader>, page: nat)
    requires TextBase(Segments(hs)).Some?
    ensures AnyWritable(ByPages, Placed(hs), page) <==>
      exists i :: HeaderCovers(hs, Delta(Segments(hs)), page, i) && Bit(hs[i].pFlags, 1)
  {
    if k :| CoveredBy(ByPages, Placed(hs), page, k) && Placed(hs)[k].flags.writable { HeaderOfCover(hs, page, k); }
    if i :| HeaderCovers(hs, Delta(Segments(hs)), page, i) && Bit(hs[i].pFlags, 1) {
      var k := CoverOfHeader(hs, page, i);
      HeaderOfCover(hs, page, k);
    }
  }

  lemma {:induction false} LastByHeaders(hs: seq<ProgramHeader>, page: nat, k: int)
    requires TextBase(Segments(hs)).Some? && LastCover(ByPages, Placed(hs), page, k)
    ensures exists i :: LastHeader(hs, Delta(Segments(hs)), page, i)
    ensures forall i :: LastHeader(hs, Delta(Segments(hs)), page, i) ==> (Placed(hs)[k].flags.noExec <==> !Bit(hs[i].pFlags, 0))
  {
    var d := Delta(Segments(hs));
    HeaderOfCover(hs, page, k);
    OriginsAscend(hs);
    var o := Origins(hs)[k];
    forall i | HeaderCovers(hs, d, page, i)
      ensures i <= o
    {
      var j := CoverOfHeader(hs, page, i);
    }
    assert LastHeader(hs, d, page, o);
  }

  /** Every byte of memory a kept header asks for is mapped, on a page the header covers. */
  lemma {:induction false} MemoryIsMapped(l: Loading, hs: seq<ProgramHeader>, i: nat, x: nat)
    requires TextBase(Segments(hs)).Some? && Loaded(l) && l.segs == Placed(hs)
    requires i < |hs| && Kept(hs[i]) && x < hs[i].memsz
    ensures var d := Delta(Segments(hs)); var page := PageOf(Shift(hs[i].vaddr, d) + x);
      page in l.now.pages && page !in l.was.pages && HeaderCovers(hs, d, page, i)
  {
    var d := Delta(Segments(hs));
    CoversItsBytes(hs, d, i, x);
    ImagePagesByHeaders(l, hs, PageOf(Shift(hs[i].vaddr, d) + x));
  }

  /** The last kept header with the execute bit lands at the fixed text address. */
  lemma {:induction false} TextHeaderLands(hs: seq<ProgramHeader>, i: nat)
    requires TextBase(Segments(hs)).Some?
    requires i < |hs| && Kept(hs[i]) && Bit(hs[i].pFlags, 0)
    requires forall j :: i < j < |hs| && Kept(hs[j]) ==> !Bit(hs[j].pFlags, 0)
    ensures Shift(hs[i].vaddr, Delta(Segments(hs))) == LOAD_TEXT_SECTION_AT
  {
    var k := TextSegmentOf(hs, i);
    TextLandsAtFixedAddress(Segments(hs));
  }

  lemma {:induction false} TextSegmentOf(hs: seq<ProgramHeader>, i: nat) returns (k: nat)
    requires i < |hs| && Kept(hs[i]) && Bit(hs[i].pFlags, 0)
    requires forall j :: i < j < |hs| && Kept(hs[j]) ==> !Bit(hs[j].pFlags, 0)
    ensures IsText(Segments(hs), k) && Segments(hs)[k].start == hs[i].vaddr
  {
    OriginsAscend(hs);
    k :| 0 <= k < |Origins(hs)| && Origins(hs)[k] == i;
    assert Describes(hs[i], Segments(hs)[k]);
    forall j | k < j < |Segments(hs)|
      ensures Segments(hs)[j].flags.noExec
    {
      assert Describes(hs[Origins(hs)[j]], Segments(hs)[j]);
    }
  }

  /** An image has a text base exactly when some kept header has the execute bit. */
  lemma {:induction false} TextBaseByHeaders(hs: seq<ProgramHeader>)
    ensures TextBase(Segments(hs)).Some? <==> exists i :: 0 <= i < |hs| && Kept(hs[i]) && Bit(hs[i].pFlags, 0)
  {
    OriginsAscend(hs);
    TextBaseMeans(Segments(hs));
    if i :| 0 <= i < |hs| && Kept(hs[i]) && Bit(hs[i].pFlags, 0) {
      var k :| 0 <= k < |Origins(hs)| && Origins(hs)[k] == i;
      assert Describes(hs[i], Segments(hs)[k]);
    }
    if k :| 0 <= k < |Segments(hs)| && !Segments(hs)[k].flags.noExec {
      assert Describes(hs[Origins(hs)[k]], Segments(hs)[k]);
    }
  }

  /** The address can be moved by `delta`: as signed words without overflow, to a canonical address. */
  predicate Moves(a: Word, delta: int) {
    -0x8000_0000_0000_0000 <= Signed(a) + delta <= ISIZE_MAX && Canonical((a + delta) % WORD)
  }

  lemma {:induction false} MovesIsCanShift(a: Word, delta: int)
    ensures Moves(a, delta) <==> CanShift(a, delta)
  {
  }

  lemma {:induction false} ShiftsByHeaders(hs: seq<ProgramHeader>, d: int)
    ensures CanShiftAll(Segments(hs), d) <==> forall i :: 0 <= i < |hs| && Kept(hs[i]) ==> Moves(hs[i].vaddr, d)
  {
    OriginsAscend(hs);
    if CanShiftAll(Segments(hs), d) {
      forall i | 0 <= i < |hs| && Kept(hs[i])
        ensures Moves(hs[i].vaddr, d)
      {
        var j :| 0 <= j < |Origins(hs)| && Origins(hs)[j] == i;
        assert Describes(hs[i], Segments(hs)[j]);
        MovesIsCanShift(hs[i].vaddr, d);
      }
    }
    if forall i :: 0 <= i < |hs| && Kept(hs[i]) ==> Moves(hs[i].vaddr, d) {
      forall j | 0 <= j < |Segments(hs)|
        ensures CanShift(Segments(hs)[j].start, d)
      {
        assert Describes(hs[Origins(hs)[j]], Segments(hs)[j]);
        MovesIsCanShift(Segments(hs)[j].start, d);
      }
    }
  }

  lemma {:induction false} TextBaseIs(hs: seq<ProgramHeader>, t: nat)
    requires t < |hs| && Kept(hs[t]) && Bit(hs[t].pFlags, 0)
    requires forall j :: t < j < |hs| && Kept(hs[j]) ==> !Bit(hs[j].pFlags, 0)
    ensures TextBase(Segments(hs)) == Some(hs[t].vaddr)
  {
    var k := TextSegmentOf(hs, t);
    TextBaseMeans(Segments(hs));
  }

  /**
   * The image can be placed exactly when every kept header can be represented, the entry point is an
   * address, and everything can be moved by the distance from the last executable header to the fixed
   * text address.
   */
  lemma {:induction false} PlacedExactlyWhen(hs: seq<ProgramHeader>, entry: Word, t: nat)
    requires t < |hs| && Kept(hs[t]) && Bit(hs[t].pFlags, 0)
    requires forall j :: t < j < |hs| && Kept(hs[j]) ==> !Bit(hs[j].pFlags, 0)
    ensures var d := LOAD_TEXT_SECTION_AT - Signed(hs[t].vaddr);
      CanPlace(hs, entry) <==>
        && Canonical(entry) && Moves(entry, d)
        && (forall i :: 0 <= i < |hs| && Kept(hs[i]) ==> Canonical(hs[i].vaddr) && hs[i].offset + hs[i].filesz < WORD)
        && (forall i :: 0 <= i < |hs| && Kept(hs[i]) ==> Moves(hs[i].vaddr, d))
  {
    TextBaseIs(hs, t);
    MovesIsCanShift(entry, Delta(Segments(hs)));
    ShiftsByHeaders(hs, Delta(Segments(hs)));
  }

  /** Shifting back leads from the address of a loaded byte to the one its header gives. */
  lemma {:induction false} ShiftedBack(v: Word, delta: int, x: nat)
    ensures (Shift(v, delta) + x - delta) % WORD == (v + x) % WORD
  {
  }

  /** A byte that a placed segment backs is a file byte of the segment's header. */
  lemma {:induction false} PlacedByte(hs: seq<ProgramHeader>, j: nat, a: nat) returns (o: nat, x: nat)
    requires TextBase(Segments(hs)).Some? && j < |Placed(hs)| && Placed(hs)[j].Backs(a)
    ensures j < |Origins(hs)| && o == Origins(hs)[j] < |hs| && LoadHeader(hs[o]) && x < hs[o].filesz
    ensures WordAt(hs[o], x) == (a - Delta(Segments(hs))) % WORD
  {
    OriginsAscend(hs);
    o, x := Origins(hs)[j], a - Placed(hs)[j].start;
    ShiftedBack(hs[o].vaddr, Delta(Segments(hs)), x);
  }

  /** Headers with different addresses for their file bytes make segments that do not overlap. */
  lemma {:induction false} PlacedApart(hs: seq<ProgramHeader>, j: nat, k: nat, a: nat)
    requires TextBase(Segments(hs)).Some? && HeadersApart(hs) && j < |Placed(hs)| && k < |Placed(hs)|
    requires Placed(hs)[j].Backs(a) && Placed(hs)[k].Backs(a)
    ensures j == k
  {
    OriginsAscend(hs);
    var o, x := PlacedByte(hs, j, a);
    var p, y := PlacedByte(hs, k, a);
  }

  /** The segment of a header backs the header's file bytes, and no later segment does. */
  lemma {:induction false} HeaderByte(hs: seq<ProgramHeader>, i: nat, x: nat) returns (k: nat)
    requires TextBase(Segments(hs)).Some? && HeadersApart(hs) && i < |hs| && LoadHeader(hs[i]) && x < hs[i].filesz
    ensures k < |Placed(hs)| && Placed(hs)[k].start == Shift(hs[i].vaddr, Delta(Segments(hs)))
      && Placed(hs)[k].fileStart == hs[i].offset
    ensures Placed(hs)[k].Backs(Placed(hs)[k].start + x)
    ensures forall j :: k < j < |Placed(hs)| ==> !Placed(hs)[j].Backs(Placed(hs)[k].start + x)
  {
    OriginsAscend(hs);
    k :| 0 <= k < |Origins(hs)| && Origins(hs)[k] == i;
    forall j | k < j < |Placed(hs)|
      ensures !Placed(hs)[j].Backs(Placed(hs)[k].start + x)
    {
      if Placed(hs)[j].Backs(Placed(hs)[k].start + x) { PlacedApart(hs, j, k, Placed(hs)[k].start + x); }
    }
  }

  /** The same for the byte of a segment, in the image of a list of segments. */
  lemma {:induction false} SegmentByteInPlace(l: Loading, k: nat, x: nat)
    requires Loaded(l) && AllFit(l.segs)
    requires k < |l.segs| && l.segs[k].Backs(l.segs[k].start + x) && forall j :: k < j < |l.segs| ==>
      !l.segs[j].Backs(l.segs[k].start + x)
    ensures var a := l.segs[k].start + x;
      PageOf(a) in l.now.pages && l.segs[k].fileStart + x < |l.bytes| && l.now.Read(a) == l.bytes[l.segs[k].fileStart + x]
  {
    ImagePagesTakeFile(l);
    FileByteInPlace(l, PageSet(l.segs), k, l.segs[k].start + x);
  }

  /**
   * For headers whose file bytes fit and have different addresses, every file byte of every Load
   * header is found at its shifted address through the final page map.
   */
  lemma {:induction false} WholeImageInPlace(l: Loading, hs: seq<ProgramHeader>, i: nat, x: nat)
    requires TextBase(Segments(hs)).Some? && Loaded(l) && l.segs == Placed(hs)
    requires FileFitsMemory(hs) && HeadersApart(hs)
    requires i < |hs| && LoadHeader(hs[i]) && x < hs[i].filesz
    ensures var a := Shift(hs[i].vaddr, Delta(Segments(hs))) + x;
      PageOf(a) in l.now.pages && hs[i].offset + x < |l.bytes| && l.now.Read(a) == l.bytes[hs[i].offset + x]
  {
    var k := HeaderByte(hs, i, x);
    LoadSegmentsFit(hs, Delta(Segments(hs)));
    SegmentByteInPlace(l, k, x);
  }

  // ---------------------------------------------------------------- earlier mappings

  /**
   * When the file bytes fit, earlier mappings show what they showed unless they alias a frame that
   * was still to be handed out.
   */
  lemma {:induction false} EarlierMappingsUnchanged(l: Loading, a: nat)
    requires Loaded(l) && PageOf(a) in l.was.pages
    ensures PageOf(a) in l.now.pages && l.now.pages[PageOf(a)] == l.was.pages[PageOf(a)]
    ensures AllFit(l.segs) && l.was.pages[PageOf(a)].frame !in l.spare ==> l.now.Read(a) == l.was.Read(a)
  {
    if AllFit(l.segs) && l.was.pages[PageOf(a)].frame !in l.spare {
      ImageFramesAreSpare(l.was.pages, l.spare, l.tables, l.now.pages, l.segs);
      ImagePagesTakeFile(l);
      OtherFramesStay(l.now.pages, PageSet(l.segs), l.was.phys, l.segs, l.bytes, a);
    }
  }

  lemma {:induction false} ImageFramesAreSpare(was: PageMap, spare: seq<nat>, tables: Tables, now: PageMap,
                                               segs: seq<Segment>)
    requires PagesLoaded(was, spare, tables, now, segs)
    ensures forall f :: f in FramesOf(now, PageSet(segs)) ==> f in spare
  {
    forall p | p in PageSet(segs)
      ensures now[p].frame in spare
    {
      FrameOfPage(was, spare, tables, now, segs, p);
    }
  }

  lemma {:induction false} OtherFramesStay(pages: PageMap, part: set<nat>, phys: Ram, segs: seq<Segment>,
                                           bytes: seq<Byte>, a: nat)
    requires InFile(segs, bytes) && TakesFile(pages, part, segs) && PageOf(a) in pages
      && pages[PageOf(a)].frame !in FramesOf(pages, part)
    ensures WriteImage(pages, phys, segs, bytes)(Translate(pages, a)) == phys(Translate(pages, a))
  {
    WriteImageFills(pages, part, phys, segs, bytes);
    SplitAddr(pages[PageOf(a)].frame, a % PAGE);
  }

  /** Where they do not, a page without aliases keeps exactly the bytes that no Load segment's file range reaches. */
  lemma {:induction false} EarlierByteAfterLoad(l: Loading, part: set<nat>, a: nat)
    requires Loaded(l) && TakesFile(l.now.pages, part, l.segs)
    requires PageOf(a) in part && PageOf(a) in l.was.pages
    ensures l.now.Read(a) == Content(Image(l.segs, l.bytes, a), l.was.Read(a))
    ensures Image(l.segs, l.bytes, a).None? <==> forall j :: 0 <= j < |l.segs| ==> !l.segs[j].Backs(a)
  {
    ByteAfterLoad(l, part, a);
    ImageOnlyBacked(l.segs, l.bytes, a);
  }

  // ---------------------------------------------------------------- zero fill

  /**
   * The part of a segment that no file byte backs, such as the bytes between file size and
   * memory size, reads zero exactly when the spare frame its page gets holds zero there.
   */
  lemma {:induction false} ZeroFillComesFromFrames(l: Loading, k: nat, a: nat)
    requires Loaded(l) && AllFit(l.segs)
    requires k < |l.segs| && l.segs[k].start <= a < l.segs[k].start + l.segs[k].len
    requires forall j :: 0 <= j < |l.segs| ==> !l.segs[j].Backs(a)
    ensures PageOf(a) in l.now.pages
    ensures var i := FrameIndex(l.tables, l.was.pages, l.segs, PageOf(a));
      i < |l.spare| && (l.now.Read(a) == 0 <==> l.was.phys(l.spare[i] * PAGE + a % PAGE) == 0)
  {
    OnImagePage(l.segs, k, a);
    FrameOfPage(l.was.pages, l.spare, l.tables, l.now.pages, l.segs, PageOf(a));
    UnbackedByte(l, a);
  }

  lemma {:induction false} UnbackedByte(l: Loading, a: nat)
    requires Loaded(l) && AllFit(l.segs)
    requires PageOf(a) in PageSet(l.segs) && forall j :: 0 <= j < |l.segs| ==> !l.segs[j].Backs(a)
    ensures PageOf(a) in l.now.pages && l.now.Read(a) == l.was.phys(l.now.pages[PageOf(a)].frame * PAGE + a % PAGE)
  {
    ImagePagesTakeFile(l);
    ByteAfterLoad(l, PageSet(l.segs), a);
    ImageOnlyBacked(l.segs, l.bytes, a);
  }

  lemma {:induction false} FrameOfPage(was: PageMap, spare: seq<nat>, tables: Tables, now: PageMap,
                                       segs: seq<Segment>, page: nat)
    requires PagesLoaded(was, spare, tables, now, segs) && page in PageSet(segs)
    ensures page in now
    ensures var i := FrameIndex(tables, was, segs, page); i < |spare| && now[page].frame == spare[i]
  {
    assert PageLoaded(was, spare, tables, now, segs, page);
  }

  // ---------------------------------------------------------------- permissions

  /** Final permissions through the page map: the union of the covering bits, execution from the last cover. */
  lemma {:induction false} FinalPermissions(l: Loading, page: nat) returns (k: int)
    requires Loaded(l) && Covered(ByPages, l.segs, page)
    ensures page in l.now.pages && LastCover(ByPages, l.segs, page, k)
    ensures l.now.pages[page].flags == Flags(AnyUser(ByPages, l.segs, page), AnyWritable(ByPages, l.segs, page), l.segs[k].flags.noExec)
    ensures NoneEmpty(l.segs) ==> (Some(l.now.pages[page].flags) == PageFlags(ByBytes, l.segs, page) <==>
      OverrunsAbsorbed(l.segs, page))
  {
    var i :| CoveredBy(ByPages, l.segs, page, i);
    LastCoverExists(ByPages, l.segs, page, i);
    k :| LastCover(ByPages, l.segs, page, k);
    PageSetIsCovered(l.segs, page);
    assert PageLoaded(l.was.pages, l.spare, l.tables, l.now.pages, l.segs, page);
    UnionOfBits(ByPages, l.segs, page);
    LastSegmentDecidesExecution(ByPages, l.segs, page, k);
    if NoneEmpty(l.segs) { PermissionsByBytes(l.segs, page); }
  }

  // ---------------------------------------------------------------- the page after the end

  predicate EndsOnPage(s: Segment) {
    (s.start + s.len) % PAGE == 0
  }

  /** All bytes of the segment have canonical addresses, in one half of the address space. */
  predicate BytesMappable(s: Segment) {
    s.start + s.len <= LOW_END || HIGH_START <= s.start <= s.start + s.len <= WORD
  }

  /** No byte of a segment is on a page of the set. */
  ghost predicate BytesFree(segs: seq<Segment>, mapped: set<nat>) {
    forall p :: p in mapped ==> !Covered(ByBytes, segs, p)
  }

  /** The page after a segment that fills its last page exists and is not in the set. */
  predicate EndsFree(segs: seq<Segment>, mapped: set<nat>) {
    forall i :: 0 <= i < |segs| && EndsOnPage(segs[i]) ==>
      segs[i].LastPage() !in mapped && segs[i].start + segs[i].len != LOW_END && segs[i].start + segs[i].len != WORD
  }

  lemma {:induction false} PlacedNotEmpty(hs: seq<ProgramHeader>)
    requires TextBase(Segments(hs)).Some?
    ensures NoneEmpty(Placed(hs))
  {
    OriginsAscend(hs);
  }

  lemma {:induction false} PagesFree(segs: seq<Segment>, mapped: set<nat>)
    requires NoneEmpty(segs)
    ensures PageSet(segs) !! mapped <==>
      BytesFree(segs, mapped) && forall i :: 0 <= i < |segs| && EndsOnPage(segs[i]) ==> segs[i].LastPage() !in mapped
  {
    forall p: nat
      ensures p in PageSet(segs) <==> Covered(ByBytes, segs, p) || exists i :: Overruns(segs, p, i)
    {
      PageSetIsCovered(segs, p);
      forall i
        ensures CoveredBy(ByPages, segs, p, i) <==> CoveredBy(ByBytes, segs, p, i) || Overruns(segs, p, i)
      {
        CoverKinds(segs, p, i);
      }
    }
    forall i | 0 <= i < |segs| && EndsOnPage(segs[i])
      ensures segs[i].LastPage() in PageSet(segs)
    {
      assert Overruns(segs, segs[i].LastPage(), i);
    }
  }

  lemma {:induction false} MappableByBytes(segs: seq<Segment>)
    requires NoneEmpty(segs)
    ensures AllMappable(segs) <==>
      && (forall i :: 0 <= i < |segs| ==> BytesMappable(segs[i]))
      && (forall i :: 0 <= i < |segs| && EndsOnPage(segs[i]) ==>
        segs[i].start + segs[i].len != LOW_END && segs[i].start + segs[i].len != WORD)
  {
  }

  /**
   * Loading succeeds exactly when the bytes of the segments can be mapped and filled and the
   * frames suffice, and in addition no segment that fills its last page is followed by a page
   * that is taken or does not exist.
   */
  lemma {:induction false} LoadsExactlyWhen(hs: seq<ProgramHeader>, entry: Word, bytes: seq<Byte>, pages: PageMap,
                         tables: Tables, left: nat)
    requires CanPlace(hs, entry)
    ensures var segs := Placed(hs);
      CanLoad(hs, entry, bytes, pages, tables, left) <==>
        && (forall i :: 0 <= i < |segs| ==> BytesMappable(segs[i])) && BytesFree(segs, pages.Keys)
        && InFile(segs, bytes) && FileBytesFit(segs, pages) && Cost(tables, pages.Keys, PageSet(segs)) <= left
        && EndsFree(segs, pages.Keys)
  {
    PlacedNotEmpty(hs);
    PagesFree(Placed(hs), pages.Keys);
    MappableByBytes(Placed(hs));
  }

  // ---------------------------------------------------------------- inputs

  /** One readable and executable header at the address it is loaded to. */
  function TextHeader(filesz: Word, memsz: Word): ProgramHeader {
    ProgramHeader(PT_LOAD, 5, 0, LOAD_TEXT_SECTION_AT, filesz, memsz, PAGE)
  }

  function TextSegment(filesz: Word, memsz: Word): Segment {
    Segment(PT_LOAD, Flags(true, false, false), 0, filesz, LOAD_TEXT_SECTION_AT, memsz, LOAD_TEXT_SECTION_AT, PAGE)
  }

  lemma {:induction false} PlacedText(filesz: Word, memsz: Word)
    requires memsz > 0
    ensures var hs := [TextHeader(filesz, memsz)];
      && TextBase(Segments(hs)).Some? && Placed(hs) == [TextSegment(filesz, memsz)] && CanPlace(hs, LOAD_TEXT_SECTION_AT)
  {
    var h := TextHeader(filesz, memsz);
    var hs := [h];
    assert hs[..0] == [];
    assert Bit(5, 0) && !Bit(5, 1) && Bit(5, 2);
    assert ToSegment(h) == TextSegment(filesz, memsz);
    assert Segments(hs) == [ToSegment(h)];
    assert [ToSegment(h)][..0] == [];
    assert TextBase(Segments(hs)) == Some(LOAD_TEXT_SECTION_AT);
    assert Placed(hs)[0] == ToSegment(h);
  }

  lemma {:induction false} PagesOfText(filesz: Word, memsz: Word)
    requires memsz <= 0x1000
    ensures var segs := [TextSegment(filesz, memsz)];
      PageSet(segs) == if memsz < 0x1000 then {0x660} else {0x660, 0x661}
  {
    var segs := [TextSegment(filesz, memsz)];
    assert segs[..0] == [];
    assert PageSet(segs) == {} + Span(0x660, if memsz < 0x1000 then 0x660 else 0x661);
  }

  const NO_TABLES: Tables := (_, _) => 0

  lemma {:induction false} CostOfOne(mapped: set<nat>, page: nat)
    ensures Cost(NO_TABLES, mapped, {page}) == 1 && Cost(NO_TABLES, mapped, {}) == 0
  {
    CostStep(NO_TABLES, mapped, {page}, page);
    assert {page} - {page} == {};
  }

  /** Such a header loads on a free page. */
  lemma {:induction false} TextLoads(filesz: Word, memsz: Word, bytes: seq<Byte>, pages: PageMap)
    requires 0 < memsz < 0x1000 && |bytes| == filesz && 0x660 !in pages
      && FileBytesFit([TextSegment(filesz, memsz)], pages)
    ensures CanLoad([TextHeader(filesz, memsz)], LOAD_TEXT_SECTION_AT, bytes, pages, NO_TABLES, 1)
  {
    PlacedText(filesz, memsz);
    PagesOfText(filesz, memsz);
    CostOfOne(pages.Keys, 0x660);
  }

  /** The memory after loading such a header, with frame 1 for its page. */
  ghost function TextMemory(was: Memory, filesz: Word, memsz: Word, bytes: seq<Byte>): Memory
    requires |bytes| == filesz
  {
    var pages := was.pages[0x660 := Entry(1, TextSegment(filesz, memsz).flags)];
    Memory(pages, WriteImage(pages, was.phys, [TextSegment(filesz, memsz)], bytes))
  }

  lemma {:induction false} TextIsLoaded(was: Memory, filesz: Word, memsz: Word, bytes: seq<Byte>)
    requires 0 < memsz < 0x1000 && |bytes| == filesz && 0x660 !in was.pages
      && FileBytesFit([TextSegment(filesz, memsz)], was.pages)
    ensures Loaded(Loading(was, [1], NO_TABLES, TextMemory(was, filesz, memsz, bytes), [TextSegment(filesz, memsz)], bytes))
  {
    var s := TextSegment(filesz, memsz);
    var segs, pages := [s], TextMemory(was, filesz, memsz, bytes).pages;
    PagesOfText(filesz, memsz);
    assert PageLoaded(was.pages, [1], NO_TABLES, pages, segs, 0x660) by {
      assert segs[..0] == [] && s.Covers(0x660);
      assert Lower(PageSet(segs), 0x660) == {};
      CostOfOne(was.pages.Keys, 0x660);
      assert FrameIndex(NO_TABLES, was.pages, segs, 0x660) == 0;
    }
    assert forall p :: p in PageSet(segs) ==> p == 0x660;
  }

  /** A file of 16 zero bytes with 16 more bytes of memory, and memory full of sevens. */
  function DirtyBytes(): seq<Byte> {
    seq(16, _ => 0)
  }

  function DirtyMemory(): Memory {
    Memory(map[], _ => 7)
  }

  /** It loads, and what should be zero reads seven. */
  lemma {:induction false} DirtyFrameShows() returns (now: Memory)
    ensures var hs := [TextHeader(16, 32)];
      && CanLoad(hs, LOAD_TEXT_SECTION_AT, DirtyBytes(), DirtyMemory().pages, NO_TABLES, 1)
      && Loaded(Loading(DirtyMemory(), [1], NO_TABLES, now, Placed(hs), DirtyBytes()))
      && 0x660 in now.pages && now.Read(0x66_0010) == 7
  {
    PlacedText(16, 32);
    TextLoads(16, 32, DirtyBytes(), map[]);
    TextIsLoaded(DirtyMemory(), 16, 32, DirtyBytes());
    now := TextMemory(DirtyMemory(), 16, 32, DirtyBytes());
    UnbackedTextByte(Loading(DirtyMemory(), [1], NO_TABLES, now, [TextSegment(16, 32)], DirtyBytes()));
  }

  lemma {:induction false} UnbackedTextByte(l: Loading)
    requires Loaded(l) && l.segs == [TextSegment(16, 32)]
    ensures 0x660 in l.now.pages && l.now.Read(0x66_0010) == l.was.phys(l.now.pages[0x660].frame * PAGE + 0x10)
  {
    PagesOfText(16, 32);
    UnbackedByte(l, 0x66_0010);
  }

  /** The page map before the next load: one writable kernel page, just above the text page. */
  function PageAbove(): PageMap {
    map[0x661 := Entry(9, Flags(false, true, true))]
  }

  function LongBytes(): seq<Byte> {
    seq(0x1010, _ => 7)
  }

  function KernelMemory(): Memory {
    Memory(PageAbove(), _ => 0)
  }

  lemma {:induction false} OverrunTakesFile(l: Loading)
    requires Loaded(l) && l.was.pages == PageAbove() && l.spare == [1] && l.tables == NO_TABLES
      && l.segs == [TextSegment(0x1010, 0x10)]
    ensures TakesFile(l.now.pages, {0x660, 0x661}, l.segs)
  {
    PagesOfText(0x1010, 0x10);
    FrameOfPage(l.was.pages, l.spare, l.tables, l.now.pages, l.segs, 0x660);
    assert l.now.pages[0x660].frame == 1 && l.now.pages[0x661] == l.was.pages[0x661];
  }

  lemma {:induction false} LongFileFits()
    ensures FileBytesFit([TextSegment(0x1010, 0x10)], PageAbove())
  {
    PagesOfText(0x1010, 0x10);
  }

  /** A header with more file bytes than memory: it loads, and the copy runs on into an earlier mapping. */
  lemma {:induction false} FileOverruns() returns (now: Memory)
    ensures var hs := [TextHeader(0x1010, 0x10)];
      && CanLoad(hs, LOAD_TEXT_SECTION_AT, LongBytes(), KernelMemory().pages, NO_TABLES, 1)
      && Loaded(Loading(KernelMemory(), [1], NO_TABLES, now, Placed(hs), LongBytes()))
      && 0x661 in now.pages && KernelMemory().Read(0x66_1000) == 0 && now.Read(0x66_1000) == 7
  {
    PlacedText(0x1010, 0x10);
    LongFileFits();
    TextLoads(0x1010, 0x10, LongBytes(), PageAbove());
    TextIsLoaded(KernelMemory(), 0x1010, 0x10, LongBytes());
    now := TextMemory(KernelMemory(), 0x1010, 0x10, LongBytes());
    var l := Loading(KernelMemory(), [1], NO_TABLES, now, [TextSegment(0x1010, 0x10)], LongBytes());
    OverrunTakesFile(l);
    FileByteInPlace(l, {0x660, 0x661}, 0, 0x66_1000);
  }

  /** A segment of exactly one page cannot be loaded below a page that is taken, although no byte of it is there. */
  lemma {:induction false} ExtraPageBlocks(left: nat)
    ensures var hs, bytes := [TextHeader(0, 0x1000)], [];
      && CanPlace(hs, LOAD_TEXT_SECTION_AT) && BytesFree(Placed(hs), PageAbove().Keys)
      && !CanLoad(hs, LOAD_TEXT_SECTION_AT, bytes, PageAbove(), NO_TABLES, left)
  {
    var hs, s := [TextHeader(0, 0x1000)], TextSegment(0, 0x1000);
    PlacedText(0, 0x1000);
    LoadsExactlyWhen(hs, LOAD_TEXT_SECTION_AT, [], PageAbove(), NO_TABLES, left);
    assert [s][0] == s && EndsOnPage(s) && s.LastPage() == 0x661 && 0x661 in PageAbove();
    assert !EndsFree([s], PageAbove().Keys);
    OnePageOnly(s);
  }

  lemma {:induction false} OnePageOnly(s: Segment)
    requires s == TextSegment(0, 0x1000)
    ensures BytesFree([s], PageAbove().Keys)
  {
    assert !s.HasByte(0x661);
  }
}
