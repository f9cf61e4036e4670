/** Pages, page flags and canonical addresses. */
module Paging {
  import opened Bits

  const PAGE: nat := 4096
  const LOW_END: nat := 0x8000_0000_0000
  const HIGH_START: nat := WORD - LOW_END

  /** Bits 47 to 63 of a canonical address are equal. */
  predicate Canonical(a: nat) {
    a < LOW_END || HIGH_START <= a < WORD
  }

  function PageOf(a: nat): (p: nat) {
    a / PAGE
  }

  /** Flags of a present page. */
  datatype Flags = Flags(user: bool, writable: bool, noExec: bool)

  datatype Entry = Entry(frame: nat, flags: Flags)

  type PageMap = map<nat, Entry>

  /** `a as i64` for a 64-bit word. */
  function Signed(a: nat): (r: int)
    requires a < WORD
  {
    if a <= ISIZE_MAX then a else a - WORD
  }

  /** `i as u64`. */
  function Unsigned(i: int): (r: nat) {
    i % WORD
  }

  function PhysAddr(e: Entry, offset: nat): (r: nat) {
    e.frame * PAGE + offset
  }

  lemma {:induction false} SplitAddr(q: nat, r: nat)
    requires r < PAGE
    ensures (q * PAGE + r) / PAGE == q && (q * PAGE + r) % PAGE == r
  {
  }

  /** Translation of a virtual address whose page is mapped. */
  function Translate(pages: PageMap, a: nat): (r: nat)
    requires PageOf(a) in pages
  {
    PhysAddr(pages[PageOf(a)], a % PAGE)
  }

  ghost predicate Injective(pages: PageMap, part: set<nat>)
    requires part <= pages.Keys
  {
    forall p, q :: p in part && q in part && pages[p].frame == pages[q].frame ==> p == q
  }

  /** Distinct addresses on pages with distinct frames are stored at distinct places. */
  lemma {:induction false} TranslateInjective(pages: PageMap, part: set<nat>, a: nat, b: nat)
    requires part <= pages.Keys && Injective(pages, part)
    requires PageOf(a) in part && PageOf(b) in part && a != b
    ensures Translate(pages, a) != Translate(pages, b)
  {
  }
}

/** The page mapper together with the memory behind it. */
module Mapping {
  import opened Prelude
  import opened Paging
  import opened Frames

  /** Contents of physical memory, by physical address. */
  type Ram = nat -> Byte

  /** How many page-table frames mapping a page takes, given the pages mapped already. */
  type Tables = (set<nat>, nat) -> nat

  class AddressSpace {
    var pages: PageMap
    var phys: Ram
    const tables: Tables

    constructor (pages: PageMap, phys: Ram, tables: Tables)
      ensures this.pages == pages && this.phys == phys && this.tables == tables
    {
      this.pages := pages;
      this.phys := phys;
      this.tables := tables;
    }

    /** Takes the frames for missing page tables, then maps; refuses a page that is mapped already. */
    method MapTo(page: nat, frame: nat, flags: Flags, allocator: BootInfoFrameAllocator) returns (ok: bool)
      requires allocator.Valid()
      modifies this`pages, allocator`next
      ensures ok <==> page !in old(pages) && tables(old(pages).Keys, page) <= old(allocator.Left())
      ensures pages == if ok then old(pages)[page := Entry(frame, flags)] else old(pages)
      ensures old(allocator.next) <= allocator.next
      ensures ok ==> allocator.next == old(allocator.next) + tables(old(pages).Keys, page)
    {
      var need := tables(pages.Keys, page);
      for i := 0 to need
        invariant allocator.next == old(allocator.next) + i && i <= old(allocator.Left())
        invariant pages == old(pages)
      {
        var table := allocator.AllocateFrame();
        if table.None? { return false; }
      }
      if page in pages { return false; }
      pages := pages[page := Entry(frame, flags)];
      ok := true;
    }

    /** `update_flags` on a mapped page. */
    method UpdateFlags(page: nat, flags: Flags)
      requires page in pages
      modifies this`pages
      ensures pages == old(pages)[page := Entry(old(pages)[page].frame, flags)]
    {
      pages := pages[page := Entry(pages[page].frame, flags)];
    }

    /** A byte stored through a virtual address; faults on an unmapped or read-only page. */
    method Store(a: nat, b: Byte) returns (ok: bool)
      modifies this`phys
      ensures ok <==> Writable(pages, a)
      ensures phys == if ok then Poke(old(phys), Translate(pages, a), b) else old(phys)
    {
      if PageOf(a) !in pages || !pages[PageOf(a)].flags.writable { return false; }
      phys := Poke(phys, Translate(pages, a), b);
      ok := true;
    }

    /** Copies a slice to a virtual range, byte by byte; faults where the range leaves writable pages. */
    method CopyTo(start: nat, data: seq<Byte>) returns (ok: bool)
      modifies this`phys
      ensures ok <==> forall a: nat :: start <= a < start + |data| ==> Writable(pages, a)
      ensures ok ==> phys == StoreAll(pages, old(phys), start, data)
    {
      for i := 0 to |data|
        invariant forall a: nat :: start <= a < start + i ==> Writable(pages, a)
        invariant phys == StoreAll(pages, old(phys), start, data[..i])
      {
        ok := Store(start + i, data[i]);
        if !ok { return; }
        assert data[..i + 1][..i] == data[..i];
      }
      assert data[..|data|] == data;
      ok := true;
    }
  }

  predicate Writable(pages: PageMap, a: nat) {
    PageOf(a) in pages && pages[PageOf(a)].flags.writable
  }

  function Poke(phys: Ram, x: nat, b: Byte): Ram {
    (y: nat) => if y == x then b else phys(y)
  }

  /** A byte stored through a virtual address, if its page is mapped. */
  function PokeAt(pages: PageMap, phys: Ram, a: nat, b: Byte): Ram {
    if PageOf(a) in pages then Poke(phys, Translate(pages, a), b) else phys
  }

  /** Physical memory after the bytes have been stored one after the other, wherever their pages are. */
  function StoreAll(pages: PageMap, phys: Ram, start: nat, data: seq<Byte>): Ram
    decreases |data|
  {
    if data == [] then phys
    else PokeAt(pages, StoreAll(pages, phys, start, data[..|data| - 1]), start + |data| - 1, data[|data| - 1])
  }

  ghost predicate RangeIn(part: set<nat>, start: nat, n: nat) {
    forall a: nat :: start <= a < start + n ==> PageOf(a) in part
  }

  /** The bytes from `start` on read as the data through the pages of the part; its other bytes are as before. */
  ghost predicate Copied(pages: PageMap, part: set<nat>, start: nat, data: seq<Byte>, was: Ram, now: Ram)
    requires part <= pages.Keys
  {
    forall a: nat :: PageOf(a) in part ==>
      now(Translate(pages, a)) == if start <= a < start + |data| then data[a - start] else was(Translate(pages, a))
  }

  /** Memory outside the frames of the part is as before. */
  ghost predicate SameOutside(pages: PageMap, part: set<nat>, was: Ram, now: Ram)
    requires part <= pages.Keys
  {
    forall x: nat :: PageOf(x) !in FramesOf(pages, part) ==> now(x) == was(x)
  }

  lemma {:induction false} CopyNext(pages: PageMap, part: set<nat>, start: nat, data: seq<Byte>, was: Ram, before: Ram)
    requires data != [] && part <= pages.Keys && Injective(pages, part) && PageOf(start + |data| - 1) in part
    requires Copied(pages, part, start, data[..|data| - 1], was, before) && SameOutside(pages, part, was, before)
    ensures var now := PokeAt(pages, before, start + |data| - 1, data[|data| - 1]);
      Copied(pages, part, start, data, was, now) && SameOutside(pages, part, was, now)
  {
    var last := start + |data| - 1;
    var now := PokeAt(pages, before, last, data[|data| - 1]);
    forall a: nat | PageOf(a) in part
      ensures now(Translate(pages, a)) == if start <= a < start + |data| then data[a - start] else was(Translate(pages, a))
    {
      if a != last { TranslateInjective(pages, part, a, last); }
    }
    SplitAddr(pages[PageOf(last)].frame, last % PAGE);
  }

  /** On pages with frames of their own, the addressed bytes change and nothing else. */
  lemma {:induction false} StoreAllCopies(pages: PageMap, part: set<nat>, phys: Ram, start: nat, data: seq<Byte>)
    requires part <= pages.Keys && Injective(pages, part)
    requires RangeIn(part, start, |data|)
    ensures Copied(pages, part, start, data, phys, StoreAll(pages, phys, start, data))
    ensures SameOutside(pages, part, phys, StoreAll(pages, phys, start, data))
    decreases |data|
  {
    if data != [] {
      var n := |data| - 1;
      assert PageOf(start + n) in part && RangeIn(part, start, n);
      StoreAllCopies(pages, part, phys, start, data[..n]);
      CopyNext(pages, part, start, data, phys, StoreAll(pages, phys, start, data[..n]));
    }
  }

  /** Same frames, same effect. */
  lemma {:induction false} StoreAllByFrames(pages: PageMap, others: PageMap, phys: Ram, start: nat, data: seq<Byte>)
    requires SameFrames(pages, others)
    ensures StoreAll(pages, phys, start, data) == StoreAll(others, phys, start, data)
    decreases |data|
  {
    if data != [] {
      StoreAllByFrames(pages, others, phys, start, data[..|data| - 1]);
    }
  }

  ghost predicate SameFrames(pages: PageMap, others: PageMap) {
    pages.Keys == others.Keys && forall p :: p in pages ==> pages[p].frame == others[p].frame
  }

  ghost function FramesOf(pages: PageMap, part: set<nat>): (r: set<nat>)
    requires part <= pages.Keys
  {
    set p | p in part :: pages[p].frame
  }

  predicate IsSmallest(page: nat, s: set<nat>) {
    page in s && forall q :: q in s ==> page <= q
  }

  ghost function Min(s: set<nat>): (m: nat)
    requires s != {}
    ensures IsSmallest(m, s)
  {
    var m :| m in s;
    var rest := s - {m};
    if rest == {} then assert s == {m}; m
    else
      var n := Min(rest);
      assert forall q :: q in s ==> q == m || q in rest;
      if n < m then n else m
  }

  /** Frames needed to map the pages of `todo` in ascending order. */
  ghost function Cost(tables: Tables, mapped: set<nat>, todo: set<nat>): (c: nat)
    decreases todo
  {
    if todo == {} then 0
    else 1 + tables(mapped, Min(todo)) + Cost(tables, mapped + {Min(todo)}, todo - {Min(todo)})
  }

  /** The pages of a set below a given one. */
  ghost function Lower(s: set<nat>, page: nat): (r: set<nat>) {
    set q | q in s && q < page
  }

  /** Mapping the smallest page first leaves the cost of the others. */
  lemma {:induction false} CostStep(tables: Tables, mapped: set<nat>, todo: set<nat>, page: nat)
    requires IsSmallest(page, todo)
    ensures Cost(tables, mapped, todo) == 1 + tables(mapped, page) + Cost(tables, mapped + {page}, todo - {page})
  {
  }

  /** Mapping one more page, above all the others, adds its own cost at the end. */
  lemma {:induction false} CostAppend(tables: Tables, mapped: set<nat>, done: set<nat>, page: nat)
    requires forall p :: p in done ==> p < page
    ensures Cost(tables, mapped, done + {page}) == Cost(tables, mapped, done) + 1 + tables(mapped + done, page)
    decreases done
  {
    if done == {} {
      CostStep(tables, mapped, {page}, page);
      assert mapped + done == mapped && done + {page} == {page};
    } else {
      var m := Min(done);
      CostStep(tables, mapped, done, m);
      CostStep(tables, mapped, done + {page}, m);
      CostAppend(tables, mapped + {m}, done - {m}, page);
      assert (done + {page}) - {m} == (done - {m}) + {page};
      assert (mapped + {m}) + (done - {m}) == mapped + done;
    }
  }
}
