/** Checking user buffers before the kernel touches them. */
module UserMemory {
  import opened Bits
  import opened Paging

  /** What the mapper says about a page that has an entry. */
  datatype Translation = InvalidFrameAddress | Mapped(flags: Flags)

  type PageTable = map<nat, Translation>

  datatype Access = ReadOnly | ReadWrite

  /** `Panics` is an arithmetic or address overflow panic. */
  datatype SliceResult = Slice(ptr: Word, len: Word) | InvalidArgument | Panics

  /** The page is mapped, user accessible, and writable if the kernel is to write. */
  predicate Accessible(table: PageTable, page: nat, access: Access) {
    page in table && table[page].Mapped? && table[page].flags.user && (access.ReadWrite? ==> table[page].flags.writable)
  }

  /** `check_user_addr`, case by case. */
  function CheckUserAddr(table: PageTable, page: nat, access: Access): (ok: bool)
    ensures ok <==> Accessible(table, page, access)
  {
    if page !in table then false
    else
      match table[page]
      case InvalidFrameAddress => false
      case Mapped(flags) =>
        if !flags.user then false
        else
          match access
          case ReadOnly => true
          case ReadWrite => flags.writable
  }

  ghost predicate EveryByteAccessible(table: PageTable, ptr: nat, bytes: nat, access: Access) {
    forall a: nat :: ptr <= a < ptr + bytes ==> Accessible(table, PageOf(a), access)
  }

  /** The last byte exists and its address is canonical. */
  predicate LastByteOk(ptr: Word, bytes: Word) {
    bytes >= 1 && ptr + (bytes - 1) < WORD && Canonical(ptr + (bytes - 1))
  }

  /**
   * What the two slice constructors return, by bytes instead of pages. An argument that is not an
   * address or a length is refused, an empty buffer or one that runs off the address space panics,
   * and any other buffer is granted exactly when all its bytes are accessible.
   */
  ghost function SliceOf(table: PageTable, ptr: Word, bytes: Word, access: Access): (r: SliceResult) {
    if !Canonical(ptr) || bytes > ISIZE_MAX then InvalidArgument
    else if !LastByteOk(ptr, bytes) then Panics
    else if EveryByteAccessible(table, ptr, bytes, access) then Slice(ptr, bytes)
    else InvalidArgument
  }

  /** The same without naming the helpers: which argument is refused, which panics, which is granted, flag by flag. */
  lemma {:induction false} SliceMeans(table: PageTable, ptr: Word, bytes: Word, access: Access)
    ensures SliceOf(table, ptr, bytes, access).Panics? <==>
      Canonical(ptr) && bytes <= ISIZE_MAX && (bytes == 0 || ptr + bytes > WORD || !Canonical(ptr + bytes - 1))
    ensures SliceOf(table, ptr, bytes, access) == Slice(ptr, bytes) <==>
      && Canonical(ptr) && 1 <= bytes <= ISIZE_MAX && ptr + bytes <= WORD && Canonical(ptr + bytes - 1)
      && forall a: nat :: ptr <= a < ptr + bytes ==>
           && PageOf(a) in table && table[PageOf(a)].Mapped? && table[PageOf(a)].flags.user
           && (access == ReadWrite ==> table[PageOf(a)].flags.writable)
    ensures SliceOf(table, ptr, bytes, access).Slice? ==> SliceOf(table, ptr, bytes, access) == Slice(ptr, bytes)
  {
    if EveryByteAccessible(table, ptr, bytes, access) {
      forall a: nat | ptr <= a < ptr + bytes
        ensures PageOf(a) in table && table[PageOf(a)].Mapped? && table[PageOf(a)].flags.user
        ensures access == ReadWrite ==> table[PageOf(a)].flags.writable
      {
        assert Accessible(table, PageOf(a), access);
      }
    }
  }

  /** The length bound keeps a range with canonical ends out of the non-canonical hole. */
  lemma {:induction false} BoundAvoidsHole(ptr: Word, bytes: Word, a: nat)
    requires Canonical(ptr) && bytes <= ISIZE_MAX && LastByteOk(ptr, bytes) && ptr <= a < ptr + bytes
    ensures Canonical(a)
    ensures Canonical(PageOf(a) * PAGE)
  {
  }

  /** Without the bound a range with canonical ends can cross it. */
  lemma {:induction false} HoleReachableWithoutBound(ptr: Word, bytes: Word)
    requires Canonical(ptr) && LastByteOk(ptr, bytes)
    ensures (exists a: nat :: ptr <= a < ptr + bytes && !Canonical(a)) <==> ptr < LOW_END && ptr + bytes > HIGH_START
  {
    if ptr < LOW_END && ptr + bytes > HIGH_START {
      assert ptr <= LOW_END < ptr + bytes && !Canonical(LOW_END);
    }
  }

  /** Pages between the first and the last of a range each hold one of its bytes. */
  lemma {:induction false} PageHoldsByte(ptr: nat, bytes: nat, page: nat)
    requires bytes >= 1 && PageOf(ptr) <= page <= PageOf(ptr + (bytes - 1))
    ensures exists a: nat :: ptr <= a < ptr + bytes && PageOf(a) == page
  {
    var a := if page == PageOf(ptr) then ptr else page * PAGE;
    assert PageOf(a) == page;
    assert ptr <= a < ptr + bytes;
  }

  /** The page loop decides the byte-level question. */
  method ConstructUserSlice(table: PageTable, ptr: Word, bytes: Word, access: Access) returns (r: SliceResult)
    ensures r == SliceOf(table, ptr, bytes, access)
  {
    if !Canonical(ptr) { return InvalidArgument; }
    if bytes > ISIZE_MAX { return InvalidArgument; }
    if bytes == 0 { return Panics; }
    var last := ptr + (bytes - 1);
    if last >= WORD || !Canonical(last) { return Panics; }
    var firstPage, lastPage := PageOf(ptr), PageOf(last);
    for page := firstPage to lastPage + 1
      invariant forall p :: firstPage <= p < page ==> Accessible(table, p, access)
    {
      var ok := CheckUserAddr(table, page, access);
      if !ok {
        PageHoldsByte(ptr, bytes, page);
        return InvalidArgument;
      }
    }
    forall a: nat | ptr <= a < ptr + bytes
      ensures Accessible(table, PageOf(a), access)
    {
      assert firstPage <= PageOf(a) <= lastPage;
    }
    r := Slice(ptr, bytes);
  }
}

/** The kernel side of a system call: which service, which result, which word. */
module Dispatch {
  import opened Bits
  import opened Paging
  import opened UserMemory

  datatype Error = NoSys | InvalidArg

  datatype CallResult = Ok(value: Word) | Err(error: Error)

  /** The call returns a word to the caller, ends the process, or stops the kernel. */
  datatype Outcome = Returns(word: Word) | Exits(code: nat) | KernelPanics

  const READ: nat := 1
  const WRITE: nat := 2
  const EXIT: nat := 3

  function ErrorCode(e: Error): (c: int) {
    match e
    case NoSys => 0
    case InvalidArg => 1
  }

  /** The word handed back; a value beyond the signed range is a kernel panic. */
  function Encode(r: CallResult): (o: Outcome) {
    match r
    case Ok(v) => if v > ISIZE_MAX then KernelPanics else Returns(v)
    case Err(e) => Returns(Unsigned(-ErrorCode(e)))
  }

  /** How a caller can tell results apart. */
  function Decode(w: Word): (r: CallResult) {
    if w == 0 then Err(NoSys) else if w == WORD - 1 then Err(InvalidArg) else Ok(w)
  }

  /** Read and write both answer with the length of the buffer. */
  ghost function Transfer(table: PageTable, ptr: Word, len: Word, access: Access): (o: Outcome) {
    match SliceOf(table, ptr, len, access)
    case Slice(_, n) => Encode(Ok(n))
    case InvalidArgument => Encode(Err(InvalidArg))
    case Panics => KernelPanics
  }

  ghost function Handle(table: PageTable, num: Word, arg0: Word, arg1: Word, arg2: Word): (o: Outcome) {
    if num == READ then Transfer(table, arg1, arg2, ReadWrite)
    else if num == WRITE then Transfer(table, arg1, arg2, ReadOnly)
    else if num == EXIT then Exits(arg0 % 256)
    else Encode(Err(NoSys))
  }

  /** `syscall_handler_inner`: number to byte, byte to service, service to result, result to word. */
  method HandleCall(table: PageTable, num: Word, arg0: Word, arg1: Word, arg2: Word) returns (o: Outcome)
    ensures o == Handle(table, num, arg0, arg1, arg2)
  {
    if num > 255 { return Encode(Err(NoSys)); }
    if num != READ && num != WRITE && num != EXIT { return Encode(Err(NoSys)); }
    if num == EXIT { return Exits(arg0 % 256); }
    var slice := ConstructUserSlice(table, arg1, arg2, if num == READ then ReadWrite else ReadOnly);
    match slice
    case Slice(_, len) => o := Encode(Ok(len));
    case InvalidArgument => o := Encode(Err(InvalidArg));
    case Panics => o := KernelPanics;
  }

  predicate Service(num: Word) {
    num == READ || num == WRITE || num == EXIT
  }

  function AccessOf(num: Word): Access {
    if num == READ then ReadWrite else ReadOnly
  }

  /**
   * A returned word tells the caller everything: zero means no such call, minus one a refused
   * buffer, and anything else is the buffer's length, whose bytes were all accessible.
   */
  lemma {:induction false} ReturnedWordMeans(table: PageTable, num: Word, arg0: Word, arg1: Word, arg2: Word)
    requires Handle(table, num, arg0, arg1, arg2).Returns?
    ensures var w := Handle(table, num, arg0, arg1, arg2).word;
      && (Decode(w) == Err(NoSys) <==> !Service(num))
      && (Decode(w) == Err(InvalidArg) <==>
            num != EXIT && Service(num) && SliceOf(table, arg1, arg2, AccessOf(num)) == InvalidArgument)
      && (Decode(w).Ok? <==>
            num != EXIT && Service(num) && LastByteOk(arg1, arg2) && arg2 <= ISIZE_MAX && Canonical(arg1)
            && EveryByteAccessible(table, arg1, arg2, AccessOf(num)))
      && (Decode(w).Ok? ==> w == arg2)
  {
  }

  lemma {:induction false} MinusOne()
    ensures Unsigned(-1) == WORD - 1 && Unsigned(0) == 0
  {
  }

  /** The kernel may touch the byte for this call: the page is mapped for users, and writable if the call reads into it. */
  ghost predicate MayTouch(table: PageTable, num: Word, a: nat) {
    && PageOf(a) in table && table[PageOf(a)].Mapped? && table[PageOf(a)].flags.user
    && (num == READ ==> table[PageOf(a)].flags.writable)
  }

  /**
   * What every call answers. Exit ends the process with the low byte of its argument. A read or write
   * of a buffer that is empty or runs off the address space stops the kernel. Any other call returns:
   * the length if the kernel may touch the whole buffer, minus one if not, and zero for unknown numbers.
   */
  lemma {:induction false} WhatCallsAnswer(table: PageTable, num: Word, arg0: Word, arg1: Word, arg2: Word)
    ensures var o, buffer := Handle(table, num, arg0, arg1, arg2), num == READ || num == WRITE;
      && (o.Exits? <==> num == EXIT) && (num == EXIT ==> o.code == arg0 % 256)
      && (o.KernelPanics? <==>
            && buffer && Canonical(arg1) && arg2 <= ISIZE_MAX
            && (arg2 == 0 || arg1 + arg2 > WORD || !Canonical(arg1 + arg2 - 1)))
      && (!buffer && num != EXIT ==> o == Returns(0))
      && (buffer && !o.KernelPanics? ==>
            o == Returns(
              if Canonical(arg1) && arg2 <= ISIZE_MAX && forall a: nat :: arg1 <= a < arg1 + arg2 ==> MayTouch(table, num, a)
              then arg2 else WORD - 1))
  {
    MinusOne();
    if num == READ || num == WRITE {
      var access := if num == READ then ReadWrite else ReadOnly;
      SliceMeans(table, arg1, arg2, access);
      assert forall a: nat :: arg1 <= a < arg1 + arg2 ==>
        (MayTouch(table, num, a) <==>
          && PageOf(a) in table && table[PageOf(a)].Mapped? && table[PageOf(a)].flags.user
          && (access == ReadWrite ==> table[PageOf(a)].flags.writable));
    }
  }

  /** The handler never trips over its own check that results are small enough. */
  lemma {:induction false} PanicsOnlyOnBadBuffers(table: PageTable, num: Word, arg0: Word, arg1: Word, arg2: Word)
    ensures Handle(table, num, arg0, arg1, arg2).KernelPanics? <==>
      (num == READ || num == WRITE) && Canonical(arg1) && arg2 <= ISIZE_MAX && !LastByteOk(arg1, arg2)
  {
  }

  /** Decoding undoes encoding on every result but an empty success, which no call produces. */
  lemma {:induction false} DecodeEncode(r: CallResult)
    requires Encode(r).Returns?
    ensures Decode(Encode(r).word) == r <==> r != Ok(0)
  {
  }

  /**
   * The handler means error words to be negative. That holds for an error exactly when its code
   * is not zero, and the code of an unknown call is zero.
   */
  lemma {:induction false} ErrorIsNegativeIff(e: Error)
    ensures Encode(Err(e)).Returns?
    ensures Signed(Encode(Err(e)).word) < 0 <==> e != NoSys
  {
  }
}
