/** Program headers, loadable segments, and what an image should look like once loaded. */
module Elf {
  import opened Prelude
  import opened Bits
  import opened Paging

  const LOAD_TEXT_SECTION_AT: Word := 0x66_0000

  const PT_NULL: nat := 0
  const PT_LOAD: nat := 1
  /** Dynamic, Interp, Note, Shlib, Phdr, Tls, and the OS- and processor-specific types with a name. */
  const OTHER_TYPES: set<nat> := {2, 3, 4, 5, 6, 7, 0x6000_0000, 0x6474_e550, 0x6474_e551, 0x6474_e552,
                                  0x6fff_ffff, 0x7000_0000, 0x7fff_ffff}

  const PF_X: nat := 1
  const PF_W: nat := 2
  const PF_R: nat := 4

  datatype ProgramHeader = ProgramHeader(
    pType: nat, pFlags: nat, offset: Word, vaddr: Word, filesz: Word, memsz: Word, align: Word)

  /** `start` moves when the image is shifted; `originalStart` keeps what the file asked for. */
  datatype Segment = Segment(
    ty: nat, flags: Flags, fileStart: nat, fileEnd: nat, start: Word, len: nat, originalStart: Word, align: nat)
  {
    function FileLen(): nat {
      if fileStart <= fileEnd then fileEnd - fileStart else 0
    }

    function FirstPage(): nat {
      PageOf(start)
    }

    /** The page of `start + len`: an end on a page boundary takes in the page after it. */
    function LastPage(): nat {
      PageOf(start + len)
    }

    predicate Covers(page: nat) {
      FirstPage() <= page <= LastPage()
    }

    /** Some byte of the segment is on the page. */
    predicate HasByte(page: nat) {
      len > 0 && FirstPage() <= page <= PageOf(start + len - 1)
    }

    predicate Backs(a: nat) {
      ty == PT_LOAD && start <= a < start + FileLen()
    }
  }

  predicate Kept(h: ProgramHeader) {
    (h.pType == PT_LOAD || h.pType in OTHER_TYPES) && h.memsz != 0
  }

  /** The address and file range of a kept header can be represented. */
  predicate Parses(h: ProgramHeader) {
    Canonical(h.vaddr) && h.offset + h.filesz < WORD
  }

  function ParseFlags(pFlags: nat): (f: Flags)
    ensures f.user <==> Bit(pFlags, 2)
    ensures f.writable <==> Bit(pFlags, 1)
    ensures f.noExec <==> !Bit(pFlags, 0)
  {
    FlagBit(pFlags);
    Flags(And(pFlags, PF_R) != 0, And(pFlags, PF_W) != 0, And(pFlags, PF_X) == 0)
  }

  lemma {:induction false} FlagBit(x: nat)
    ensures And(x, 1) != 0 <==> Bit(x, 0)
    ensures And(x, 2) != 0 <==> Bit(x, 1)
    ensures And(x, 4) != 0 <==> Bit(x, 2)
  {
    assert Pow2(0) == 1 && Pow2(1) == 2 && Pow2(2) == 4;
    AndPow(x, 0);
    AndPow(x, 1);
    AndPow(x, 2);
  }

  function ToSegment(h: ProgramHeader): (s: Segment) {
    Segment(h.pType, ParseFlags(h.pFlags), h.offset, h.offset + h.filesz, h.vaddr, h.memsz, h.vaddr, h.align)
  }

  function Segments(hs: seq<ProgramHeader>): (r: seq<Segment>) {
    if hs == [] then []
    else Segments(hs[..|hs| - 1]) + (if Kept(hs[|hs| - 1]) then [ToSegment(hs[|hs| - 1])] else [])
  }

  /** What a segment takes from its header. */
  ghost predicate Describes(h: ProgramHeader, s: Segment) {
    && s.ty == h.pType && s.start == s.originalStart == h.vaddr && s.len == h.memsz && s.align == h.align
    && s.fileStart == h.offset && s.fileEnd == h.offset + h.filesz
    && (s.flags.user <==> Bit(h.pFlags, 2))
    && (s.flags.writable <==> Bit(h.pFlags, 1))
    && (s.flags.noExec <==> !Bit(h.pFlags, 0))
  }

  lemma {:induction false} DescribedOnce(h: ProgramHeader, s: Segment)
    ensures Describes(h, s) <==> s == ToSegment(h)
  {
  }

  /** The segments are those that kept headers describe. */
  lemma {:induction false} SegmentsFromHeaders(hs: seq<ProgramHeader>, s: Segment)
    ensures s in Segments(hs) <==> exists i :: 0 <= i < |hs| && Kept(hs[i]) && Describes(hs[i], s)
  {
    SegmentsListed(hs, s);
    if i :| 0 <= i < |hs| && Kept(hs[i]) && Describes(hs[i], s) { DescribedOnce(hs[i], s); }
    if i :| 0 <= i < |hs| && Kept(hs[i]) && ToSegment(hs[i]) == s { DescribedOnce(hs[i], s); }
  }

  lemma {:induction false} SegmentsListed(hs: seq<ProgramHeader>, s: Segment)
    ensures s in Segments(hs) <==> exists i :: 0 <= i < |hs| && Kept(hs[i]) && ToSegment(hs[i]) == s
  {
    if hs != [] {
      var n := |hs| - 1;
      SegmentsListed(hs[..n], s);
      if i: nat :| i < n && Kept(hs[..n][i]) && ToSegment(hs[..n][i]) == s {
        assert hs[..n][i] == hs[i];
      }
      if i: nat :| i < n && Kept(hs[i]) && ToSegment(hs[i]) == s {
        assert hs[..n][i] == hs[i];
      }
    }
  }

  // ---------------------------------------------------------------- shifting

  /** Start of the last executable segment. */
  function TextBase(segs: seq<Segment>): (r: Option<Word>) {
    if segs == [] then None
    else if !segs[|segs| - 1].flags.noExec then Some(segs[|segs| - 1].start)
    else TextBase(segs[..|segs| - 1])
  }

  /** The last executable segment is number `k`. */
  ghost predicate IsText(segs: seq<Segment>, k: int) {
    0 <= k < |segs| && !segs[k].flags.noExec && forall j :: k < j < |segs| ==> segs[j].flags.noExec
  }

  /** The text base is the start of the last executable segment, and there is none exactly without such a segment. */
  lemma {:induction false} TextBaseMeans(segs: seq<Segment>)
    ensures TextBase(segs).None? <==> forall j :: 0 <= j < |segs| ==> segs[j].flags.noExec
    ensures forall v :: TextBase(segs) == Some(v) <==> exists k :: IsText(segs, k) && segs[k].start == v
  {
    if segs != [] {
      var n := |segs| - 1;
      TextBaseMeans(segs[..n]);
      if segs[n].flags.noExec {
        forall k
          ensures IsText(segs, k) <==> IsText(segs[..n], k)
        {
        }
        forall v
          ensures TextBase(segs) == Some(v) <==> exists k :: IsText(segs, k) && segs[k].start == v
        {
          if k :| IsText(segs, k) && segs[k].start == v { assert IsText(segs[..n], k) && segs[..n][k].start == v; }
          if k :| IsText(segs[..n], k) && segs[..n][k].start == v { assert IsText(segs, k) && segs[k].start == v; }
        }
      } else {
        assert IsText(segs, n);
        assert forall k :: IsText(segs, k) ==> k == n;
      }
    }
  }

  function Shift(a: Word, delta: int): (r: Word) {
    Unsigned(Signed(a) + delta)
  }

  function Shifted(s: Segment, delta: int): (r: Segment) {
    s.(start := Shift(s.start, delta))
  }

  function ShiftedAll(segs: seq<Segment>, delta: int): (r: seq<Segment>)
    ensures |r| == |segs|
    ensures forall i :: 0 <= i < |r| ==> r[i] == Shifted(segs[i], delta)
  {
    seq(|segs|, i requires 0 <= i < |segs| => Shifted(segs[i], delta))
  }

  /** The image moves as a whole: distances between addresses survive, as words. */
  lemma {:induction false} ShiftIsRigid(a: Word, b: Word, delta: int)
    ensures (Shift(b, delta) - Shift(a, delta)) % WORD == (b - a) % WORD
  {
  }

  /** The last executable segment ends up at the fixed text address, and there is one exactly when there is a text base. */
  lemma {:induction false} TextLandsAtFixedAddress(segs: seq<Segment>)
    requires TextBase(segs).Some?
    ensures exists k :: IsText(segs, k)
    ensures forall k :: IsText(segs, k) ==>
      ShiftedAll(segs, LOAD_TEXT_SECTION_AT - Signed(TextBase(segs).value))[k].start == LOAD_TEXT_SECTION_AT
  {
    TextBaseMeans(segs);
    var v := TextBase(segs).value;
    var t :| IsText(segs, t) && segs[t].start == v;
    assert forall k :: IsText(segs, k) ==> k == t;
    assert Shift(v, LOAD_TEXT_SECTION_AT - Signed(v)) == LOAD_TEXT_SECTION_AT;
  }

  // ---------------------------------------------------------------- permissions

  /** The merge of the source: first the union, then the no-execute test on the result. */
  function Merge(current: Flags, added: Flags): (r: Flags) {
    var merged := Flags(current.user || added.user, current.writable || added.writable, current.noExec || added.noExec);
    if !merged.noExec || !added.noExec then merged.(noExec := false) else merged
  }

  /** Which pages a segment contributes to: those the loader walks over, or those that hold a byte of it. */
  datatype Extent = ByPages | ByBytes

  predicate On(x: Extent, s: Segment, page: nat) {
    match x
    case ByPages => s.Covers(page)
    case ByBytes => s.HasByte(page)
  }

  /** Flags of a page after the segments have been merged in header order; the loader's are `ByPages`. */
  function PageFlags(x: Extent, segs: seq<Segment>, page: nat): (r: Option<Flags>) {
    if segs == [] then None
    else
      var before := PageFlags(x, segs[..|segs| - 1], page);
      var last := segs[|segs| - 1];
      if !On(x, last, page) then before
      else if before.None? then Some(last.flags)
      else Some(Merge(before.value, last.flags))
  }

  predicate CoveredBy(x: Extent, segs: seq<Segment>, page: nat, i: int) {
    0 <= i < |segs| && On(x, segs[i], page)
  }

  ghost predicate LastCover(x: Extent, segs: seq<Segment>, page: nat, k: int) {
    CoveredBy(x, segs, page, k) && forall i :: CoveredBy(x, segs, page, i) ==> i <= k
  }

  lemma {:induction false} LastCoverExists(x: Extent, segs: seq<Segment>, page: nat, i: int)
    requires CoveredBy(x, segs, page, i)
    ensures exists k :: LastCover(x, segs, page, k)
  {
    var n := |segs| - 1;
    if On(x, segs[n], page) {
      assert LastCover(x, segs, page, n);
    } else {
      assert CoveredBy(x, segs[..n], page, i);
      LastCoverExists(x, segs[..n], page, i);
      var k :| LastCover(x, segs[..n], page, k);
      forall j | CoveredBy(x, segs, page, j)
        ensures j <= k
      {
        assert CoveredBy(x, segs[..n], page, j);
      }
      assert CoveredBy(x, segs, page, k);
      assert LastCover(x, segs, page, k);
    }
  }

  ghost predicate Covered(x: Extent, segs: seq<Segment>, page: nat) {
    exists i :: CoveredBy(x, segs, page, i)
  }

  ghost predicate AnyUser(x: Extent, segs: seq<Segment>, page: nat) {
    exists i :: CoveredBy(x, segs, page, i) && segs[i].flags.user
  }

  ghost predicate AnyWritable(x: Extent, segs: seq<Segment>, page: nat) {
    exists i :: CoveredBy(x, segs, page, i) && segs[i].flags.writable
  }

  lemma {:induction false} CoverOfFront(x: Extent, segs: seq<Segment>, page: nat, i: int)
    requires segs != []
    ensures CoveredBy(x, segs[..|segs| - 1], page, i) <==> CoveredBy(x, segs, page, i) && i < |segs| - 1
  {
  }

  lemma {:induction false} SplitLast(x: Extent, segs: seq<Segment>, page: nat)
    requires segs != []
    ensures var front, last := segs[..|segs| - 1], segs[|segs| - 1];
      && (Covered(x, segs, page) <==> Covered(x, front, page) || On(x, last, page))
      && (AnyUser(x, segs, page) <==> AnyUser(x, front, page) || (On(x, last, page) && last.flags.user))
      && (AnyWritable(x, segs, page) <==> AnyWritable(x, front, page) || (On(x, last, page) && last.flags.writable))
  {
    var n := |segs| - 1;
    forall i
      ensures CoveredBy(x, segs[..n], page, i) <==> CoveredBy(x, segs, page, i) && i < n
    {
      CoverOfFront(x, segs, page, i);
    }
    assert CoveredBy(x, segs, page, n) <==> On(x, segs[n], page);
  }

  /** Exactly the covered pages are planned, with the union of the user and writable bits of all covering segments. */
  lemma {:induction false} UnionOfBits(x: Extent, segs: seq<Segment>, page: nat)
    ensures PageFlags(x, segs, page).Some? <==> Covered(x, segs, page)
    ensures PageFlags(x, segs, page).Some? ==>
      && (PageFlags(x, segs, page).value.user <==> AnyUser(x, segs, page))
      && (PageFlags(x, segs, page).value.writable <==> AnyWritable(x, segs, page))
  {
    if segs != [] {
      UnionOfBits(x, segs[..|segs| - 1], page);
      SplitLast(x, segs, page);
      var front := segs[..|segs| - 1];
      if AnyUser(x, front, page) {
        var i :| CoveredBy(x, front, page, i) && front[i].flags.user;
        assert Covered(x, front, page);
      }
      if AnyWritable(x, front, page) {
        var i :| CoveredBy(x, front, page, i) && front[i].flags.writable;
        assert Covered(x, front, page);
      }
    }
  }

  /** The no-execute bit is the one of the last covering segment. */
  lemma {:induction false} LastSegmentDecidesExecution(x: Extent, segs: seq<Segment>, page: nat, k: int)
    requires LastCover(x, segs, page, k)
    ensures PageFlags(x, segs, page).Some? && PageFlags(x, segs, page).value.noExec == segs[k].flags.noExec
  {
    var n := |segs| - 1;
    if k < n {
      assert !CoveredBy(x, segs, page, n);
      CoverOfFront(x, segs, page, k);
      forall i | CoveredBy(x, segs[..n], page, i)
        ensures i <= k
      {
        CoverOfFront(x, segs, page, i);
      }
      LastSegmentDecidesExecution(x, segs[..n], page, k);
    }
  }

  /** The stated intent: a page is non-executable only when no covering segment is executable. */
  ghost predicate NoCoverExecutes(segs: seq<Segment>, page: nat) {
    forall i :: CoveredBy(ByPages, segs, page, i) ==> segs[i].flags.noExec
  }

  /** The code meets that intent on a page exactly when the last covering segment executes or none does. */
  lemma {:induction false} ExecuteRule(segs: seq<Segment>, page: nat, k: int)
    requires LastCover(ByPages, segs, page, k)
    ensures PageFlags(ByPages, segs, page).Some?
    ensures (PageFlags(ByPages, segs, page).value.noExec <==> NoCoverExecutes(segs, page))
       <==> !segs[k].flags.noExec || NoCoverExecutes(segs, page)
  {
    LastSegmentDecidesExecution(ByPages, segs, page, k);
  }

  /** An executable segment followed by a data segment on the same page: the page loses execution. */
  lemma {:induction false} ExecutionLost() returns (segs: seq<Segment>, page: nat)
    ensures CoveredBy(ByPages, segs, page, 0) && !segs[0].flags.noExec
    ensures PageFlags(ByPages, segs, page) == Some(Flags(true, true, true))
  {
    page := 0x660;
    segs := [Segment(PT_LOAD, Flags(true, false, false), 0, 0x800, 0x66_0000, 0x800, 0x66_0000, PAGE),
             Segment(PT_LOAD, Flags(true, true, true), 0x800, 0x900, 0x66_0800, 0x100, 0x66_0800, PAGE)];
    assert segs[..1] == [segs[0]] && segs[..1][..0] == [];
    assert segs[0].Covers(page) && segs[1].Covers(page);
    assert PageFlags(ByPages, segs[..1], page) == Some(segs[0].flags);
  }

  // ---------------------------------------------------------------- the page after the end

  lemma {:induction false} HasByteMeans(s: Segment, page: nat)
    ensures s.HasByte(page) <==> exists a: nat :: s.start <= a < s.start + s.len && PageOf(a) == page
  {
    if s.HasByte(page) {
      var a := if page == s.FirstPage() then s.start else page * PAGE;
      assert s.start <= a < s.start + s.len && PageOf(a) == page;
    }
  }

  /** The segment ends on a page boundary, and this is the page after it. */
  predicate PageAfter(s: Segment, page: nat) {
    page == s.LastPage() && (s.start + s.len) % PAGE == 0
  }

  /** A segment is planned onto a page without a byte of it exactly when it ends where that page begins. */
  lemma {:induction false} ExtraPage(s: Segment, page: nat)
    requires s.len > 0
    ensures s.HasByte(page) ==> s.Covers(page)
    ensures s.Covers(page) && !s.HasByte(page) <==> PageAfter(s, page)
    ensures s.Covers(page) && (forall a: nat :: s.start <= a < s.start + s.len ==> PageOf(a) != page) <==>
      PageAfter(s, page)
  {
    HasByteMeans(s, page);
  }

  ghost predicate NoneEmpty(segs: seq<Segment>) {
    forall i :: 0 <= i < |segs| ==> segs[i].len > 0
  }

  predicate Overruns(segs: seq<Segment>, page: nat, i: int) {
    0 <= i < |segs| && PageAfter(segs[i], page)
  }

  /** Segments with bytes on the page give it all that this one does. */
  ghost predicate Absorbed(segs: seq<Segment>, page: nat, i: int)
    requires 0 <= i < |segs|
  {
    exists m ::
      && LastCover(ByBytes, segs, page, m)
      && (segs[i].flags.user ==> AnyUser(ByBytes, segs, page))
      && (segs[i].flags.writable ==> AnyWritable(ByBytes, segs, page))
      && (LastCover(ByPages, segs, page, i) ==> segs[i].flags.noExec == segs[m].flags.noExec)
  }

  ghost predicate OverrunsAbsorbed(segs: seq<Segment>, page: nat) {
    forall i :: Overruns(segs, page, i) ==> Absorbed(segs, page, i)
  }

  lemma {:induction false} CoverKinds(segs: seq<Segment>, page: nat, i: int)
    requires NoneEmpty(segs)
    ensures CoveredBy(ByPages, segs, page, i) <==> CoveredBy(ByBytes, segs, page, i) || Overruns(segs, page, i)
    ensures !(CoveredBy(ByBytes, segs, page, i) && Overruns(segs, page, i))
  {
    if 0 <= i < |segs| { ExtraPage(segs[i], page); }
  }

  lemma {:induction false} AbsorbedIsSame(segs: seq<Segment>, page: nat, k: int)
    requires NoneEmpty(segs) && OverrunsAbsorbed(segs, page) && LastCover(ByPages, segs, page, k)
    ensures PageFlags(ByPages, segs, page) == PageFlags(ByBytes, segs, page)
  {
    forall i
      ensures CoveredBy(ByPages, segs, page, i) <==> CoveredBy(ByBytes, segs, page, i) || Overruns(segs, page, i)
    {
      CoverKinds(segs, page, i);
    }
    var m := k;
    if Overruns(segs, page, k) {
      assert Absorbed(segs, page, k);
      m :| LastCover(ByBytes, segs, page, m) && segs[k].flags.noExec == segs[m].flags.noExec;
    } else {
      assert LastCover(ByBytes, segs, page, k);
    }
    UnionOfBits(ByPages, segs, page);
    UnionOfBits(ByBytes, segs, page);
    LastSegmentDecidesExecution(ByPages, segs, page, k);
    LastSegmentDecidesExecution(ByBytes, segs, page, m);
  }

  lemma {:induction false} SameIsAbsorbed(segs: seq<Segment>, page: nat, i: int)
    requires NoneEmpty(segs) && PageFlags(ByPages, segs, page) == PageFlags(ByBytes, segs, page)
      && Overruns(segs, page, i)
    ensures Absorbed(segs, page, i)
  {
    CoverKinds(segs, page, i);
    assert CoveredBy(ByPages, segs, page, i);
    UnionOfBits(ByPages, segs, page);
    UnionOfBits(ByBytes, segs, page);
    var j :| CoveredBy(ByBytes, segs, page, j);
    LastCoverExists(ByBytes, segs, page, j);
    var m :| LastCover(ByBytes, segs, page, m);
    LastSegmentDecidesExecution(ByBytes, segs, page, m);
    if LastCover(ByPages, segs, page, i) { LastSegmentDecidesExecution(ByPages, segs, page, i); }
  }

  /**
   * A page gets the permissions of the segments that have bytes on it exactly when those give it
   * everything that segments ending at its first address do.
   */
  lemma {:induction false} PermissionsByBytes(segs: seq<Segment>, page: nat)
    requires NoneEmpty(segs)
    ensures PageFlags(ByPages, segs, page) == PageFlags(ByBytes, segs, page) <==> OverrunsAbsorbed(segs, page)
  {
    UnionOfBits(ByPages, segs, page);
    UnionOfBits(ByBytes, segs, page);
    if PageFlags(ByPages, segs, page) == PageFlags(ByBytes, segs, page) {
      forall i | Overruns(segs, page, i)
        ensures Absorbed(segs, page, i)
      {
        SameIsAbsorbed(segs, page, i);
      }
    }
    if OverrunsAbsorbed(segs, page) {
      if i :| CoveredBy(ByPages, segs, page, i) {
        LastCoverExists(ByPages, segs, page, i);
        var k :| LastCover(ByPages, segs, page, k);
        AbsorbedIsSame(segs, page, k);
      } else {
        forall i
          ensures !CoveredBy(ByBytes, segs, page, i)
        {
          CoverKinds(segs, page, i);
        }
      }
    }
  }

  /**
   * Data, and then text that ends where the data begins: the data page is writable and executable,
   * with no byte of text on it.
   */
  lemma {:induction false} WritableAndExecutable() returns (segs: seq<Segment>, page: nat)
    ensures PageFlags(ByPages, segs, page) == Some(Flags(true, true, false))
    ensures PageFlags(ByBytes, segs, page) == Some(Flags(true, true, true))
    ensures |segs| == 2 && !segs[1].flags.noExec && !segs[1].flags.writable && !segs[1].HasByte(page)
  {
    page := 0x661;
    segs := [Segment(PT_LOAD, Flags(true, true, true), 0x1000, 0x1100, 0x66_1000, 0x100, 0x66_1000, PAGE),
             Segment(PT_LOAD, Flags(true, false, false), 0, 0x1000, 0x66_0000, 0x1000, 0x66_0000, PAGE)];
    assert segs[..1] == [segs[0]] && segs[..1][..0] == [];
    assert segs[0].HasByte(page) && segs[0].Covers(page) && segs[1].Covers(page);
    assert PageFlags(ByPages, segs[..1], page) == Some(segs[0].flags) == PageFlags(ByBytes, segs[..1], page);
  }

  // ---------------------------------------------------------------- contents

  /** The byte the image holds at an address: the last Load segment with a file byte there. */
  function Image(segs: seq<Segment>, bytes: seq<Byte>, a: nat): (r: Option<Byte>)
    requires InFile(segs, bytes)
  {
    if segs == [] then None
    else
      var last := segs[|segs| - 1];
      if last.Backs(a) then Some(bytes[last.fileStart + (a - last.start)])
      else Image(segs[..|segs| - 1], bytes, a)
  }

  predicate InFile(segs: seq<Segment>, bytes: seq<Byte>) {
    forall i :: 0 <= i < |segs| && segs[i].ty == PT_LOAD ==> segs[i].fileStart <= segs[i].fileEnd <= |bytes|
  }

  /** Where no later Load segment has a file byte, the image holds the segment's own. */
  lemma {:induction false} ImageOfSegment(segs: seq<Segment>, bytes: seq<Byte>, k: nat, a: nat)
    requires InFile(segs, bytes) && k < |segs| && segs[k].Backs(a)
    requires forall i :: k < i < |segs| ==> !segs[i].Backs(a)
    ensures Image(segs, bytes, a) == Some(bytes[segs[k].fileStart + (a - segs[k].start)])
  {
    if k < |segs| - 1 { ImageOfSegment(segs[..|segs| - 1], bytes, k, a); }
  }

  lemma {:induction false} ImageOnlyBacked(segs: seq<Segment>, bytes: seq<Byte>, a: nat)
    requires InFile(segs, bytes)
    ensures Image(segs, bytes, a).None? <==> forall i :: 0 <= i < |segs| ==> !segs[i].Backs(a)
  {
    if segs != [] { ImageOnlyBacked(segs[..|segs| - 1], bytes, a); }
  }
}
