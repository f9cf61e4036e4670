/** A system call from the user's stub through the kernel and back. */
module SyscallPath {
  import opened Bits
  import opened Cpu

  // ---------------------------------------------------------------- the programs

  const STUB: seq<Instr> := [Push(Rbp), Mov(Rbp, Rsp), Mov(R10, Rcx), Syscall, Leave, Ret]

  /** Offsets of the two words of the thread data. */
  const KERNEL_RSP: nat := 0
  const USER_RSP: nat := 8

  function Handler(innerAt: Value): seq<Instr> {
    [Swapgs, StoreGs(USER_RSP, Rsp), LoadGs(Rsp, KERNEL_RSP), Push(Rcx), Push(R11), Mov(Rcx, R10), Call(innerAt),
     Pop(R11), Pop(Rcx), StoreGs(KERNEL_RSP, Rsp), LoadGs(Rsp, USER_RSP), Swapgs, Sysretq]
  }

  /** Interrupt flag and the bit that is always one. */
  const USER_FLAGS: nat := 0x202
  const INTERRUPT_FLAG: nat := 9

  const ENTER: seq<Instr> := [Mov(Rcx, Rdi), MovImm(R11, USER_FLAGS), Mov(Rsp, Rsi), Mov(Rbp, Rsi), Swapgs, Sysretq]

  // ---------------------------------------------------------------- the calling convention

  /** Registers a sysv64 callee keeps for its caller. */
  datatype Preserved = Preserved(rbx: Value, rbp: Value, r12: Value, r13: Value, r14: Value, r15: Value)

  function Saved(s: State): Preserved {
    Preserved(s.regs.rbx, s.regs.rbp, s.regs.r12, s.regs.r13, s.regs.r14, s.regs.r15)
  }

  datatype Arguments = Arguments(num: Value, arg0: Value, arg1: Value, arg2: Value, arg3: Value, arg4: Value)

  /** The first six integer arguments (x86-64 psABI, section 3.2.3). */
  function Args(s: State): Arguments {
    Arguments(s.regs.rdi, s.regs.rsi, s.regs.rdx, s.regs.rcx, s.regs.r8, s.regs.r9)
  }

  /**
   * What a kernel function promises: in which states it returns when entered and with what result,
   * how far below its stack pointer it may write, and which other words (kernel data, a user
   * buffer) it may write. All of it may depend on registers, flags and memory.
   */
  datatype Convention = Convention(
    depth: nat, touches: (State, Value) -> bool, answers: State -> bool, result: State -> Value)
  {
    /** Words of its stack, from the deepest up to its own return address. */
    predicate InFrame(rsp: Value, a: Value) {
      rsp - depth <= a <= rsp
    }

    predicate Writes(s: State, a: Value) {
      InFrame(s.regs.rsp, a) || touches(s, a)
    }

    /** The stack is deep enough, and none of the other words it writes is on it. */
    ghost predicate Room(s: State) {
      depth <= s.regs.rsp && forall a: Value :: touches(s, a) ==> !InFrame(s.regs.rsp, a)
    }
  }

  /** Memory is as before but for the words the function may write. */
  ghost predicate KeepsMemory(c: Convention, s: State, mem: map<Value, Value>) {
    forall a: Value :: !c.Writes(s, a) ==> Load(mem, a) == Load(s.mem, a)
  }

  predicate ReturnsTo(s: State, t: State) {
    && t.rip == Load(s.mem, s.regs.rsp) && t.regs.rsp == s.regs.rsp + 8 && Saved(t) == Saved(s)
    && t.gs == s.gs && t.kernelGs == s.kernelGs && t.user == s.user
  }

  ghost predicate Returned(c: Convention, s: State, t: State) {
    ReturnsTo(s, t) && KeepsMemory(c, s, t.mem) && t.regs.rax == c.result(s)
  }

  /** The kernel's function keeps its promise whenever it is entered in kernel mode, with room, in a state it answers. */
  ghost predicate Conforms(m: Machine, c: Convention) {
    forall s: State :: s.rip == m.innerAt && !s.user && c.Room(s) && c.answers(s) ==> Returned(c, s, m.inner(s))
  }

  // ---------------------------------------------------------------- where things are

  /** Kernel stack top `k`, thread data `t` and user stack pointer `u` are 8-aligned and their words apart. */
  predicate Apart(k: Value, t: Value, u: Value) {
    && 24 <= k < WORD && 0 <= t < WORD - 8 && 8 <= u < WORD - 8
    && k % 8 == 0 && t % 8 == 0 && u % 8 == 0
    && (t + 8 < k - 24 || k <= t)
    && (u < k - 24 || k <= u - 8)
    && (u < t || t + 8 < u - 8)
  }

  /**
   * The function answers in the state in which a call made in state `s` enters it, the kernel stack
   * is deep enough for it, and nothing it writes is the thread data, the kernel stack or the frame
   * of the user's stub.
   */
  ghost predicate Undisturbed(m: Machine, c: Convention, s: State, k: Value, t: Value) {
    var e, low, u := Entered(m, s, k, t), k - 24 - c.depth, s.regs.rsp - 8;
    && c.answers(e)
    && 0 <= low && (t + 8 < low || k <= t) && (u + 8 < low || k <= u)
    && forall a: Value :: c.touches(e, a) ==> !(low <= a < k) && a != t && a != t + 8 && a != u && a != u + 8
  }

  ghost predicate Programmed(m: Machine, stubAt: Value) {
    Installed(m, stubAt, STUB) && Installed(m, m.lstar, Handler(m.innerAt))
  }

  /** User mode with the thread data one `swapgs` away, and the kernel stack pointer in it. */
  predicate UserReady(s: State, k: Value, t: Value) {
    s.user && s.kernelGs == t && Load(s.mem, t) == k
  }

  // ---------------------------------------------------------------- the stretches of a call

  /** The stub makes its frame, moves the third argument out of the way, and traps. */
  lemma {:induction false} StubEntry(m: Machine, ss: seq<State>, n: nat)
    requires IsTrace(m, ss) && n + 4 < |ss| && Installed(m, ss[n].rip, STUB) && 8 <= ss[n].regs.rsp
    ensures ss[n + 1].gs == ss[n + 2].gs == ss[n + 3].gs == ss[n].gs
    ensures ss[n + 1].user == ss[n + 2].user == ss[n + 3].user == ss[n].user
    ensures var s := ss[n]; var u := s.regs.rsp - 8;
      ss[n + 4] == s.(
        regs := s.regs.(rsp := u, rbp := u, r10 := s.regs.rcx, rcx := s.rip + 4, r11 := s.rflags),
        mem := s.mem[u := s.regs.rbp], rip := m.lstar, rflags := m.mask(s.rflags), user := false)
  {
    var base := ss[n].rip;
    Advance(m, ss, n, base, STUB, 0);
    Advance(m, ss, n + 1, base, STUB, 1);
    Advance(m, ss, n + 2, base, STUB, 2);
    Advance(m, ss, n + 3, base, STUB, 3);
  }

  /** Entry, first part: thread data in, user stack pointer away, kernel stack pointer in. */
  lemma {:induction false} SwapIn(m: Machine, ss: seq<State>, n: nat)
    requires IsTrace(m, ss) && n + 3 < |ss| && Installed(m, ss[n].rip, Handler(m.innerAt))
      && 0 <= ss[n].kernelGs < WORD - 8
    ensures ss[n + 1].gs == ss[n + 2].gs == ss[n].kernelGs && ss[n + 1].user == ss[n + 2].user == ss[n].user
    ensures var s := ss[n];
      ss[n + 3] == s.(
        regs := s.regs.(rsp := Load(s.mem, s.kernelGs)), mem := s.mem[s.kernelGs + 8 := s.regs.rsp],
        gs := s.kernelGs, kernelGs := s.gs, rip := s.rip + 3)
  {
    var base := ss[n].rip;
    Advance(m, ss, n, base, Handler(m.innerAt), 0);
    Advance(m, ss, n + 1, base, Handler(m.innerAt), 1);
    Advance(m, ss, n + 2, base, Handler(m.innerAt), 2);
  }

  /** Entry, second part: save return address and flags. */
  lemma {:induction false} SaveResume(m: Machine, ss: seq<State>, n: nat)
    requires IsTrace(m, ss) && n + 2 < |ss| && Installed(m, ss[n].rip - 3, Handler(m.innerAt)) && 16 <= ss[n].regs.rsp
    ensures ss[n + 1].gs == ss[n].gs && ss[n + 1].user == ss[n].user
    ensures var s := ss[n]; var k := s.regs.rsp;
      ss[n + 2] == s.(
        regs := s.regs.(rsp := k - 16), rip := s.rip + 2, mem := s.mem[k - 8 := s.regs.rcx][k - 16 := s.regs.r11])
  {
    var base := ss[n].rip - 3;
    Advance(m, ss, n, base, Handler(m.innerAt), 3);
    Advance(m, ss, n + 1, base, Handler(m.innerAt), 4);
  }

  /** Entry, third part: put the third argument back and call. */
  lemma {:induction false} CallInner(m: Machine, ss: seq<State>, n: nat)
    requires IsTrace(m, ss) && n + 2 < |ss| && Installed(m, ss[n].rip - 5, Handler(m.innerAt)) && 8 <= ss[n].regs.rsp
    ensures ss[n + 1].gs == ss[n].gs && ss[n + 1].user == ss[n].user
    ensures var s := ss[n]; var sp := s.regs.rsp - 8;
      ss[n + 2] == s.(regs := s.regs.(rsp := sp, rcx := s.regs.r10), rip := m.innerAt, mem := s.mem[sp := s.rip + 2])
  {
    var base := ss[n].rip - 5;
    Advance(m, ss, n, base, Handler(m.innerAt), 5);
    Advance(m, ss, n + 1, base, Handler(m.innerAt), 6);
  }

  /** Exit, first part: the saved flags and return address come back. */
  lemma {:induction false} PopSaved(m: Machine, ss: seq<State>, n: nat)
    requires IsTrace(m, ss) && n + 2 < |ss| && Installed(m, ss[n].rip - 7, Handler(m.innerAt))
      && 0 <= ss[n].regs.rsp < WORD - 16
    ensures ss[n + 1].gs == ss[n].gs && ss[n + 1].user == ss[n].user
    ensures var s := ss[n]; var sp := s.regs.rsp;
      ss[n + 2] == s.(regs := s.regs.(rsp := sp + 16, r11 := Load(s.mem, sp), rcx := Load(s.mem, sp + 8)), rip := s.rip + 2)
  {
    var base := ss[n].rip - 7;
    Advance(m, ss, n, base, Handler(m.innerAt), 7);
    Advance(m, ss, n + 1, base, Handler(m.innerAt), 8);
  }

  /** Exit, second part: kernel stack pointer away, user stack pointer in, thread data out, return. */
  lemma {:induction false} SwapOut(m: Machine, ss: seq<State>, n: nat)
    requires IsTrace(m, ss) && n + 4 < |ss| && Installed(m, ss[n].rip - 9, Handler(m.innerAt)) && 0 <= ss[n].gs < WORD - 8
    ensures ss[n + 1].gs == ss[n + 2].gs == ss[n].gs && ss[n + 3].gs == ss[n].kernelGs
    ensures ss[n + 1].user == ss[n + 2].user == ss[n + 3].user == ss[n].user
    ensures var s := ss[n];
      ss[n + 4] == s.(
        regs := s.regs.(rsp := Load(s.mem, s.gs + 8)), mem := s.mem[s.gs := s.regs.rsp],
        gs := s.kernelGs, kernelGs := s.gs, rip := s.regs.rcx, rflags := m.sysret(s.regs.r11), user := true)
  {
    var base := ss[n].rip - 9;
    Advance(m, ss, n, base, Handler(m.innerAt), 9);
    Advance(m, ss, n + 1, base, Handler(m.innerAt), 10);
    Advance(m, ss, n + 2, base, Handler(m.innerAt), 11);
    Advance(m, ss, n + 3, base, Handler(m.innerAt), 12);
  }

  /** The stub drops its frame and returns to its caller. */
  lemma {:induction false} StubExit(m: Machine, ss: seq<State>, n: nat)
    requires IsTrace(m, ss) && n + 2 < |ss| && Installed(m, ss[n].rip - 4, STUB) && 0 <= ss[n].regs.rbp < WORD - 16
    ensures ss[n + 1].gs == ss[n].gs && ss[n + 1].user == ss[n].user
    ensures var s := ss[n]; var fp := s.regs.rbp;
      ss[n + 2] == s.(regs := s.regs.(rsp := fp + 16, rbp := Load(s.mem, fp)), rip := Load(s.mem, fp + 8))
  {
    var base := ss[n].rip - 4;
    Advance(m, ss, n, base, STUB, 4);
    Advance(m, ss, n + 1, base, STUB, 5);
  }

  // ---------------------------------------------------------------- the whole call

  const AT_INNER: nat := 11
  const CALL_LENGTH: nat := 20

  /** A user program about to run the stub, with the kernel's data where it belongs. */
  ghost predicate AboutToCall(m: Machine, s: State, k: Value, t: Value) {
    Programmed(m, s.rip) && UserReady(s, k, t) && Apart(k, t, s.regs.rsp)
  }

  /** The state in which the kernel's function is entered. */
  function Entered(m: Machine, s: State, k: Value, t: Value): State {
    var u := s.regs.rsp - 8;
    State(s.regs.(rsp := k - 24, rbp := u, r10 := s.regs.rcx, r11 := s.rflags), m.innerAt, m.mask(s.rflags), t, s.gs, false,
          s.mem[u := s.regs.rbp][t + 8 := u][k - 8 := s.rip + 4][k - 16 := s.rflags][k - 24 := m.lstar + 7])
  }

  /** A trace of one whole call. */
  ghost predicate CallTrace(m: Machine, ss: seq<State>, k: Value, t: Value) {
    |ss| == CALL_LENGTH + 1 && IsTrace(m, ss) && AboutToCall(m, ss[0], k, t)
  }

  /** Such a trace exists for every state about to call. */
  lemma {:induction false} CallHappens(m: Machine, s: State, k: Value, t: Value) returns (ss: seq<State>)
    requires AboutToCall(m, s, k, t)
    ensures CallTrace(m, ss, k, t) && ss[0] == s
  {
    ss := TraceExists(m, s, CALL_LENGTH);
  }

  lemma {:induction false} ReachesInner(m: Machine, ss: seq<State>, k: Value, t: Value)
    requires CallTrace(m, ss, k, t)
    ensures ss[AT_INNER] == Entered(m, ss[0], k, t)
  {
    StubEntry(m, ss, 0);
    assert Load(ss[4].mem, t) == k;
    SwapIn(m, ss, 4);
    SaveResume(m, ss, 7);
    CallInner(m, ss, 9);
  }

  /** Number and arguments arrive in order, on the kernel stack, in kernel mode. */
  lemma {:induction false} ArgumentsArrive(m: Machine, ss: seq<State>, k: Value, t: Value)
    requires CallTrace(m, ss, k, t)
    ensures var e := ss[AT_INNER];
      && e.rip == m.innerAt && !e.user && Args(e) == Args(ss[0]) && e.regs.rsp == k - 24 && e.gs == t
      && e.rflags == m.mask(ss[0].rflags)
  {
    ReachesInner(m, ss, k, t);
  }

  /** What the kernel's function hands back: its result, and everything the way out relies on. */
  predicate HandsBack(m: Machine, s: State, k: Value, t: Value, r: State) {
    var u := s.regs.rsp - 8;
    && r.rip == m.lstar + 7 && r.regs.rsp == k - 16 && Saved(r) == Saved(s).(rbp := u)
    && r.gs == t && r.kernelGs == s.gs && !r.user
    && Load(r.mem, k - 16) == s.rflags && Load(r.mem, k - 8) == s.rip + 4 && Load(r.mem, t) == k
    && Load(r.mem, t + 8) == u
    && Load(r.mem, u) == s.regs.rbp && Load(r.mem, u + 8) == Load(s.mem, s.regs.rsp)
  }

  /** At the state in which it is entered, the function has room, and the way out is none of what it writes. */
  lemma {:induction false} EnteredWithRoom(m: Machine, c: Convention, s: State, k: Value, t: Value)
    requires AboutToCall(m, s, k, t) && Undisturbed(m, c, s, k, t)
    ensures var e, u := Entered(m, s, k, t), s.regs.rsp - 8;
      && c.Room(e) && Args(e) == Args(s)
      && !c.Writes(e, k - 16) && !c.Writes(e, k - 8) && !c.Writes(e, t) && !c.Writes(e, t + 8) && !c.Writes(e, u)
      && !c.Writes(e, u + 8)
  {
  }

  lemma {:induction false} InnerHandsBack(m: Machine, c: Convention, s: State, k: Value, t: Value, r: State)
    requires AboutToCall(m, s, k, t) && Undisturbed(m, c, s, k, t) && Returned(c, Entered(m, s, k, t), r)
    ensures HandsBack(m, s, k, t, r)
  {
    EnteredWithRoom(m, c, s, k, t);
    var e, u := Entered(m, s, k, t), s.regs.rsp - 8;
    assert Load(r.mem, k - 16) == Load(e.mem, k - 16) && Load(r.mem, k - 8) == Load(e.mem, k - 8);
    assert Load(r.mem, t) == Load(e.mem, t) && Load(r.mem, t + 8) == Load(e.mem, t + 8);
    assert Load(r.mem, u) == Load(e.mem, u) && Load(r.mem, u + 8) == Load(e.mem, u + 8);
  }

  /** The kernel's function runs and hands back. */
  lemma {:induction false} InnerRuns(m: Machine, c: Convention, ss: seq<State>, k: Value, t: Value)
    requires CallTrace(m, ss, k, t) && Conforms(m, c) && Undisturbed(m, c, ss[0], k, t)
    ensures HandsBack(m, ss[0], k, t, ss[12]) && Returned(c, Entered(m, ss[0], k, t), ss[12])
  {
    ReachesInner(m, ss, k, t);
    EnteredWithRoom(m, c, ss[0], k, t);
    assert StepHolds(m, ss, AT_INNER);
    InnerHandsBack(m, c, ss[0], k, t, ss[12]);
  }

  /** From the return of the kernel's function back into the stub. */
  lemma {:induction false} LeavesKernel(m: Machine, ss: seq<State>, k: Value, t: Value)
    requires CallTrace(m, ss, k, t) && HandsBack(m, ss[0], k, t, ss[12])
    ensures var s, r, y := ss[0], ss[12], ss[18];
      && y == r.(
           regs := r.regs.(rsp := s.regs.rsp - 8, r11 := s.rflags, rcx := s.rip + 4), mem := r.mem[t := k],
           gs := s.gs, kernelGs := t, rip := s.rip + 4, rflags := m.sysret(s.rflags), user := true)
  {
    PopSaved(m, ss, 12);
    SwapOut(m, ss, 14);
  }

  lemma {:induction false} ComesBack(m: Machine, ss: seq<State>, k: Value, t: Value)
    requires CallTrace(m, ss, k, t) && HandsBack(m, ss[0], k, t, ss[12])
    ensures var s, z := ss[0], ss[CALL_LENGTH];
      && z.rip == Load(s.mem, s.regs.rsp) && z.regs.rsp == s.regs.rsp + 8 && z.regs.rax == ss[12].regs.rax
      && Saved(z) == Saved(s) && z.rflags == m.sysret(s.rflags) && z.gs == s.gs && UserReady(z, k, t)
  {
    LeavesKernel(m, ss, k, t);
    StubExit(m, ss, 18);
  }

  /** What a caller can rely on after a sysv64 call. */
  datatype Visible = Visible(result: Value, rip: Value, rsp: Value, saved: Preserved)

  function View(s: State): Visible {
    Visible(s.regs.rax, s.rip, s.regs.rsp, Saved(s))
  }

  /** The caller's state as if it had called the kernel's function directly, in kernel mode. */
  function Direct(m: Machine, s: State): State {
    s.(rip := m.innerAt, user := false)
  }

  /** The words a call may change: its saved state on both stacks, the thread data, and what the function writes. */
  ghost predicate MayChange(m: Machine, c: Convention, s: State, k: Value, t: Value, a: Value) {
    a == s.regs.rsp - 8 || a == t || a == t + 8 || k - 24 <= a < k || c.Writes(Entered(m, s, k, t), a)
  }

  /**
   * A system call looks to its caller like a call of the kernel's function: its result, the
   * caller's resume address and stack, the preserved registers, and no other memory changed. Where
   * the function would also return from a direct call on the caller's own stack, the two look the
   * same exactly when its result does not depend on what differs between the two entries. Flags
   * come back through the return filter, and the processor is ready for the next call.
   */
  lemma {:induction false} SystemCallIsDirectCall(m: Machine, c: Convention, ss: seq<State>, k: Value, t: Value)
    requires CallTrace(m, ss, k, t) && Conforms(m, c) && Undisturbed(m, c, ss[0], k, t)
    ensures var s, z := ss[0], ss[CALL_LENGTH];
      && View(z) == Visible(c.result(Entered(m, s, k, t)), Load(s.mem, s.regs.rsp), s.regs.rsp + 8, Saved(s))
      && (c.Room(Direct(m, s)) && c.answers(Direct(m, s)) ==>
            (View(z) == View(m.inner(Direct(m, s))) <==> c.result(Direct(m, s)) == c.result(Entered(m, s, k, t))))
      && z.rflags == m.sysret(s.rflags) && z.gs == s.gs && UserReady(z, k, t)
    ensures forall a: Value :: !MayChange(m, c, ss[0], k, t, a) ==> Load(ss[CALL_LENGTH].mem, a) == Load(ss[0].mem, a)
  {
    InnerRuns(m, c, ss, k, t);
    ComesBack(m, ss, k, t);
    OtherMemoryStays(m, c, ss, k, t);
  }

  /** The result is determined by the arguments and the words of memory that `seen` holds of. */
  ghost predicate DependsOn(c: Convention, seen: Value -> bool) {
    forall s: State, s': State ::
      Args(s) == Args(s') && SameWords(s, s', seen) ==> c.result(s) == c.result(s')
  }

  ghost predicate SameWords(s: State, s': State, seen: Value -> bool) {
    forall a: Value :: seen(a) ==> Load(s.mem, a) == Load(s'.mem, a)
  }

  /** A function that reads none of the words the way in writes gives a system call the result of a direct call. */
  lemma {:induction false} SameResult(m: Machine, c: Convention, s: State, k: Value, t: Value, seen: Value -> bool)
    requires DependsOn(c, seen)
    requires forall a: Value :: seen(a) ==> a != s.regs.rsp - 8 && a != t + 8 && !(k - 24 <= a < k)
    ensures c.result(Direct(m, s)) == c.result(Entered(m, s, k, t))
  {
    assert SameWords(Direct(m, s), Entered(m, s, k, t), seen);
  }

  lemma {:induction false} OtherMemoryStays(m: Machine, c: Convention, ss: seq<State>, k: Value, t: Value)
    requires CallTrace(m, ss, k, t) && HandsBack(m, ss[0], k, t, ss[12]) && Returned(c, Entered(m, ss[0], k, t), ss[12])
    ensures forall a: Value :: !MayChange(m, c, ss[0], k, t, a) ==> Load(ss[CALL_LENGTH].mem, a) == Load(ss[0].mem, a)
  {
    LeavesKernel(m, ss, k, t);
    StubExit(m, ss, 18);
    var e := Entered(m, ss[0], k, t);
    forall a: Value | !MayChange(m, c, ss[0], k, t, a)
      ensures Load(ss[CALL_LENGTH].mem, a) == Load(ss[0].mem, a)
    {
      assert Load(ss[12].mem, a) == Load(e.mem, a);
    }
  }

  /**
   * Flags come back unchanged exactly when bit 1 is set and every other set bit is one a return to
   * user mode takes over.
   */
  lemma {:induction false} FlagsRestored(m: Machine, c: Convention, ss: seq<State>, k: Value, t: Value, fmask: nat)
    requires CallTrace(m, ss, k, t) && Conforms(m, c) && Undisturbed(m, c, ss[0], k, t)
    requires fmask < WORD && RealFlags(m, fmask) && ss[0].rflags >= 0
    ensures var before, after := ss[0].rflags, ss[CALL_LENGTH].rflags;
      && (after == before <==> Bit(before, 1) && forall i: nat :: Bit(before, i) ==> TakenOver(i))
      && after >= 0 && SysretFlags(after) == after
  {
    SystemCallIsDirectCall(m, c, ss, k, t);
    SysretFlagsIdempotent(ss[0].rflags);
    SysretKeeps(ss[0].rflags);
    assert m.sysret(ss[0].rflags) == SysretFlags(ss[0].rflags);
  }

  /** With the interrupt flag in the mask register, the kernel's function starts with interrupts off. */
  lemma {:induction false} InterruptsOffInKernel(m: Machine, ss: seq<State>, k: Value, t: Value, fmask: nat)
    requires CallTrace(m, ss, k, t) && fmask < WORD && RealFlags(m, fmask) && Bit(fmask, INTERRUPT_FLAG)
      && ss[0].rflags >= 0
    ensures ss[AT_INNER].rflags >= 0 && !Bit(ss[AT_INNER].rflags, INTERRUPT_FLAG)
  {
    ReachesInner(m, ss, k, t);
    MaskedBit(ss[0].rflags, fmask, INTERRUPT_FLAG);
    assert m.mask(ss[0].rflags) == MaskFlags(ss[0].rflags, fmask);
  }

  /** Direction flag: string instructions run downwards. */
  const DIRECTION_FLAG: nat := 10

  /**
   * What the ABI promises a function on entry: the stack pointer is 8 below a multiple of 16
   * (x86-64 psABI, section 3.2.2) and the direction flag is clear (section 3.2.1).
   */
  predicate AbiEntry(s: State) {
    (s.regs.rsp + 8) % 16 == 0 && s.rflags >= 0 && !Bit(s.rflags, DIRECTION_FLAG)
  }

  /**
   * The handler enters the kernel's function as the ABI demands exactly when the kernel stack top is
   * a multiple of 16 and the direction flag is in the mask register or clear in the caller.
   */
  lemma {:induction false} EnteredByAbi(m: Machine, ss: seq<State>, k: Value, t: Value, fmask: nat)
    requires CallTrace(m, ss, k, t) && fmask < WORD && RealFlags(m, fmask) && ss[0].rflags >= 0
    ensures AbiEntry(ss[AT_INNER]) <==> k % 16 == 0 && (Bit(fmask, DIRECTION_FLAG) || !Bit(ss[0].rflags, DIRECTION_FLAG))
  {
    ReachesInner(m, ss, k, t);
    assert m.mask(ss[0].rflags) == MaskFlags(ss[0].rflags, fmask);
    MaskedBit(ss[0].rflags, fmask, DIRECTION_FLAG);
  }

  // ---------------------------------------------------------------- thread data and kernel stack

  /** The active GS base and the privilege level of a state. */
  predicate Holds(s: State, gs: Value, user: bool) {
    s.gs == gs && s.user == user
  }

  lemma {:induction false} WayIn(m: Machine, ss: seq<State>, k: Value, t: Value)
    requires CallTrace(m, ss, k, t)
    ensures forall i :: 0 <= i <= AT_INNER ==> Holds(ss[i], if i < 5 then ss[0].gs else t, i < 4)
  {
    StubEntry(m, ss, 0);
    assert Load(ss[4].mem, t) == k;
    SwapIn(m, ss, 4);
    SaveResume(m, ss, 7);
    CallInner(m, ss, 9);
  }

  lemma {:induction false} WayOut(m: Machine, ss: seq<State>, k: Value, t: Value)
    requires CallTrace(m, ss, k, t) && HandsBack(m, ss[0], k, t, ss[12])
    ensures forall i :: 12 <= i <= CALL_LENGTH ==> Holds(ss[i], if i < 17 then t else ss[0].gs, i >= 18)
  {
    PopSaved(m, ss, 12);
    SwapOut(m, ss, 14);
    LeavesKernel(m, ss, k, t);
    StubExit(m, ss, 18);
  }

  /**
   * The thread data is the active GS base exactly from the first `swapgs` of the handler to the
   * second, and the processor is in kernel mode from the trap to the return.
   */
  lemma {:induction false} ThreadDataWindow(m: Machine, c: Convention, ss: seq<State>, k: Value, t: Value)
    requires CallTrace(m, ss, k, t) && Conforms(m, c) && Undisturbed(m, c, ss[0], k, t) && ss[0].gs != t
    ensures forall i :: 0 <= i <= CALL_LENGTH ==> (ss[i].gs == t <==> 5 <= i < 17) && (ss[i].user <==> i < 4 || i >= 18)
  {
    WayIn(m, ss, k, t);
    InnerRuns(m, c, ss, k, t);
    WayOut(m, ss, k, t);
    forall i | 0 <= i <= CALL_LENGTH
      ensures (ss[i].gs == t <==> 5 <= i < 17) && (ss[i].user <==> i < 4 || i >= 18)
    {
      assert Holds(ss[i], if 5 <= i < 17 then t else ss[0].gs, i < 4 || i >= 18);
    }
  }

  /**
   * `enter_user_mode`, called with the thread data as GS base: the processor ends up in user
   * mode at the given address and stack, ready for system calls.
   */
  lemma {:induction false} EntersUserMode(m: Machine, ss: seq<State>, k: Value, t: Value)
    requires |ss| == 7 && IsTrace(m, ss) && Installed(m, ss[0].rip, ENTER)
    requires ss[0].gs == t && Load(ss[0].mem, t) == k
    ensures var s, z := ss[0], ss[6];
      && z.rip == s.regs.rdi && z.regs.rsp == z.regs.rbp == s.regs.rsi && z.rflags == m.sysret(USER_FLAGS)
      && z.gs == s.kernelGs && UserReady(z, k, t)
  {
    var base := ss[0].rip;
    Advance(m, ss, 0, base, ENTER, 0);
    Advance(m, ss, 1, base, ENTER, 1);
    Advance(m, ss, 2, base, ENTER, 2);
    Advance(m, ss, 3, base, ENTER, 3);
    Advance(m, ss, 4, base, ENTER, 4);
    Advance(m, ss, 5, base, ENTER, 5);
  }

  /** A user program starts with interrupts on: no bit of the flags chosen for it is filtered out. */
  lemma {:induction false} UserFlagsSurvive()
    ensures SysretFlags(USER_FLAGS) == USER_FLAGS && Bit(USER_FLAGS, INTERRUPT_FLAG)
  {
    forall i: nat
      ensures Bit(USER_FLAGS, i) <==> i == 1 || i == INTERRUPT_FLAG
    {
      UserFlagBit(i);
    }
    InterruptFlagTaken();
    SysretKeeps(USER_FLAGS);
  }

  lemma {:induction false} InterruptFlagTaken()
    ensures TakenOver(INTERRUPT_FLAG)
  {
  }

  lemma {:induction false} UserFlagBit(i: nat)
    ensures Bit(USER_FLAGS, i) <==> i == 1 || i == INTERRUPT_FLAG
  {
    assert Pow2(1) == 2 && Pow2(9) == 512 && Or(512, 2) == USER_FLAGS;
    OrBit(Pow2(9), Pow2(1), i);
    PowBit(9, i);
    PowBit(1, i);
  }

  /** Whatever a user program does between calls: it cannot reach the hidden GS base or the thread data. */
  predicate UserWork(a: State, b: State, t: Value) {
    b.user && b.kernelGs == a.kernelGs && Load(b.mem, t) == Load(a.mem, t)
  }

  /**
   * One returning call of a user program, made after any work: the stub and handler are in place,
   * the stacks are apart, and the call is one the kernel's function answers without disturbing them.
   */
  ghost predicate CallAfter(m: Machine, c: Convention, before: State, ss: seq<State>, k: Value, t: Value) {
    && |ss| == CALL_LENGTH + 1 && IsTrace(m, ss) && Programmed(m, ss[0].rip) && UserWork(before, ss[0], t)
    && Apart(k, t, ss[0].regs.rsp) && Undisturbed(m, c, ss[0], k, t)
  }

  /** The state the user program had before call `i`. */
  function Before(start: State, calls: seq<seq<State>>, i: nat): State
    requires i <= |calls|
  {
    if i == 0 || |calls[i - 1]| <= CALL_LENGTH then start else calls[i - 1][CALL_LENGTH]
  }

  /** A run of a user program: entered once, then any number of returning calls with any work in between. */
  ghost predicate Session(m: Machine, c: Convention, start: State, calls: seq<seq<State>>, k: Value, t: Value) {
    forall i {:trigger CallAt(m, c, start, calls, k, t, i)} :: 0 <= i < |calls| ==> CallAt(m, c, start, calls, k, t, i)
  }

  ghost predicate CallAt(m: Machine, c: Convention, start: State, calls: seq<seq<State>>, k: Value, t: Value, i: nat)
    requires i < |calls|
  {
    CallAfter(m, c, Before(start, calls, i), calls[i], k, t)
  }

  /** A call leaves the processor ready for the next. */
  lemma {:induction false} NextCall(m: Machine, c: Convention, before: State, ss: seq<State>, k: Value, t: Value)
    requires UserReady(before, k, t) && Conforms(m, c) && CallAfter(m, c, before, ss, k, t)
    ensures CallTrace(m, ss, k, t) && ss[AT_INNER].regs.rsp == k - 24 && ss[AT_INNER].gs == t
    ensures UserReady(ss[CALL_LENGTH], k, t)
  {
    ArgumentsArrive(m, ss, k, t);
    InnerRuns(m, c, ss, k, t);
    ComesBack(m, ss, k, t);
  }

  /** Every system call of every session starts from the same kernel stack pointer and finds the thread data in place. */
  lemma {:induction false} KernelStackStable(m: Machine, c: Convention, start: State, calls: seq<seq<State>>,
                                             k: Value, t: Value, i: nat)
    requires Session(m, c, start, calls, k, t) && UserReady(start, k, t) && Conforms(m, c) && i < |calls|
    ensures CallTrace(m, calls[i], k, t)
    ensures calls[i][AT_INNER].regs.rsp == k - 24 && calls[i][AT_INNER].gs == t
    ensures UserReady(calls[i][CALL_LENGTH], k, t)
  {
    assert CallAt(m, c, start, calls, k, t, i);
    if i > 0 { KernelStackStable(m, c, start, calls, k, t, i - 1); }
    NextCall(m, c, Before(start, calls, i), calls[i], k, t);
  }

  /**
   * From the kernel's jump to user mode on: every call of the session runs on the stack whose top
   * the thread data held then.
   */
  lemma {:induction false} SessionFromEntry(m: Machine, c: Convention, entry: seq<State>, calls: seq<seq<State>>,
                                            k: Value, t: Value, i: nat)
    requires |entry| == 7 && IsTrace(m, entry) && Installed(m, entry[0].rip, ENTER)
    requires entry[0].gs == t && Load(entry[0].mem, t) == k
    requires Session(m, c, entry[6], calls, k, t) && Conforms(m, c) && i < |calls|
    ensures |calls[i]| == CALL_LENGTH + 1
    ensures calls[i][AT_INNER].regs.rsp == k - 24 && calls[i][AT_INNER].gs == t
    ensures var s := calls[i][0];
      View(calls[i][CALL_LENGTH]) ==
        Visible(c.result(calls[i][AT_INNER]), Load(s.mem, s.regs.rsp), s.regs.rsp + 8, Saved(s))
  {
    EntersUserMode(m, entry, k, t);
    KernelStackStable(m, c, entry[6], calls, k, t, i);
    assert CallAt(m, c, entry[6], calls, k, t, i);
    ReachesInner(m, calls[i], k, t);
    SystemCallIsDirectCall(m, c, calls[i], k, t);
  }
}

/** The system call path with the kernel's dispatcher behind it. */
module SyscallService {
  import opened Bits
  import opened Cpu
  import opened SyscallPath
  import opened UserMemory
  import opened Dispatch
  import opened Paging

  predicate IsWord(v: Value) {
    0 <= v < WORD
  }

  /** The dispatcher answers these arguments: it neither ends the process nor stops the kernel. */
  ghost predicate Answers(table: PageTable, a: Arguments) {
    && IsWord(a.num) && IsWord(a.arg0) && IsWord(a.arg1) && IsWord(a.arg2)
    && Handle(table, a.num, a.arg0, a.arg1, a.arg2).Returns?
  }

  ghost function Answer(table: PageTable, a: Arguments): Value {
    if Answers(table, a) then Handle(table, a.num, a.arg0, a.arg1, a.arg2).word else 0
  }

  /**
   * The dispatcher as a kernel function: `tableOf` is the page table a state holds, `ready` what
   * else it needs in order to return (a free screen lock, the ABI's entry conditions), and it has
   * whatever stack it needs and writes whatever words it writes.
   */
  ghost function Dispatching(tableOf: State -> PageTable, ready: State -> bool, depth: nat,
                             touches: (State, Value) -> bool): Convention
  {
    Convention(
      depth, touches, (s: State) => ready(s) && Answers(tableOf(s), Args(s)), (s: State) => Answer(tableOf(s), Args(s)))
  }

  /**
   * End to end: the word a user finds in rax after a returning system call is the dispatcher's
   * answer to the arguments in the caller's registers under the page table of that moment. Decoded,
   * it is the buffer length exactly when the call was a read or write of a buffer whose every byte
   * the kernel may touch.
   */
  lemma {:induction false} UserSeesDispatch(m: Machine, ss: seq<State>, k: Value, t: Value, tableOf: State -> PageTable,
                                            ready: State -> bool, depth: nat, touches: (State, Value) -> bool)
    requires CallTrace(m, ss, k, t) && Conforms(m, Dispatching(tableOf, ready, depth, touches))
    requires Undisturbed(m, Dispatching(tableOf, ready, depth, touches), ss[0], k, t)
    ensures Answers(tableOf(ss[AT_INNER]), Args(ss[0]))
    ensures var num, ptr, len := ss[0].regs.rdi, ss[0].regs.rdx, ss[0].regs.rcx;
      ss[CALL_LENGTH].regs.rax ==
        if num != READ && num != WRITE then 0
        else if Canonical(ptr) && len <= ISIZE_MAX && forall a: nat :: ptr <= a < ptr + len ==> MayTouch(tableOf(ss[AT_INNER]), num, a)
        then len else WORD - 1
    ensures var num, ptr, len, rax := ss[0].regs.rdi, ss[0].regs.rdx, ss[0].regs.rcx, ss[CALL_LENGTH].regs.rax;
      && IsWord(rax)
      && (Decode(rax) == Err(NoSys) <==> !Service(num))
      && (Decode(rax) == Ok(len) <==>
            && (num == READ || num == WRITE)
            && SliceOf(tableOf(ss[AT_INNER]), ptr, len, AccessOf(num)) == Slice(ptr, len))
  {
    var a, table := Args(ss[0]), tableOf(Entered(m, ss[0], k, t));
    ReachesInner(m, ss, k, t);
    EnteredWithRoom(m, Dispatching(tableOf, ready, depth, touches), ss[0], k, t);
    SystemCallIsDirectCall(m, Dispatching(tableOf, ready, depth, touches), ss, k, t);
    ReturnedWordMeans(table, a.num, a.arg0, a.arg1, a.arg2);
    WhatCallsAnswer(table, a.num, a.arg0, a.arg1, a.arg2);
  }

  // ---------------------------------------------------------------- a function that keeps the convention

  /**
   * A dispatcher as a compiler would make it: it relies on the ABI's entry conditions, takes a lock
   * that it must find free, finds the page table in memory, pushes two preserved registers and
   * overwrites them, counts its calls in a global word, and undoes what it must before it returns.
   * Anything it does not answer stops it.
   */
  ghost function Compiled(tableOf: State -> PageTable, lock: Value, counter: Value): State -> State {
    (s: State) =>
      if !CanRun(s, lock) || !Answers(tableOf(s), Args(s)) then s
      else
        var sp, mem := s.regs.rsp, CompiledWrites(s, lock, counter);
        s.(mem := mem, rip := Load(mem, sp),
           regs := s.regs.(rsp := sp + 8, rbp := Load(mem, sp - 8), rbx := Load(mem, sp - 16), rcx := sp, r11 := 0,
                           rax := Answer(tableOf(s), Args(s))))
  }

  function CompiledWrites(s: State, lock: Value, counter: Value): map<Value, Value> {
    var locked := s.mem[s.regs.rsp - 8 := s.regs.rbp][s.regs.rsp - 16 := s.regs.rbx][lock := 1];
    locked[counter := Load(locked, counter) + 1][lock := 0]
  }

  predicate CanRun(s: State, lock: Value) {
    AbiEntry(s) && Load(s.mem, lock) == 0
  }

  ghost function CompiledConvention(tableOf: State -> PageTable, lock: Value, counter: Value): Convention {
    Dispatching(tableOf, s => CanRun(s, lock), 16, (_, a) => a == lock || a == counter)
  }

  /** The memory it leaves: its frame, the lock and the counter may differ, nothing else. */
  lemma {:induction false} CompiledMemory(s: State, lock: Value, counter: Value)
    requires !(s.regs.rsp - 16 <= lock <= s.regs.rsp) && !(s.regs.rsp - 16 <= counter <= s.regs.rsp)
    ensures var sp, mem := s.regs.rsp, CompiledWrites(s, lock, counter);
      && Load(mem, sp) == Load(s.mem, sp) && Load(mem, sp - 8) == s.regs.rbp && Load(mem, sp - 16) == s.regs.rbx
    ensures forall a: Value :: !(s.regs.rsp - 16 <= a <= s.regs.rsp) && a != lock && a != counter ==>
      Load(CompiledWrites(s, lock, counter), a) == Load(s.mem, a)
  {
  }

  lemma {:induction false} CompiledReturns(s: State, tableOf: State -> PageTable, lock: Value, counter: Value)
    requires CompiledConvention(tableOf, lock, counter).Room(s) && CompiledConvention(tableOf, lock, counter).answers(s)
    ensures Returned(CompiledConvention(tableOf, lock, counter), s, Compiled(tableOf, lock, counter)(s))
  {
    var c, t := CompiledConvention(tableOf, lock, counter), Compiled(tableOf, lock, counter)(s);
    assert c.touches(s, counter) && c.touches(s, lock);
    assert !c.InFrame(s.regs.rsp, counter) && !c.InFrame(s.regs.rsp, lock);
    CompiledMemory(s, lock, counter);
    forall a: Value | !c.Writes(s, a)
      ensures Load(t.mem, a) == Load(s.mem, a)
    {
      assert !c.InFrame(s.regs.rsp, a) && !c.touches(s, a);
      assert a != lock && a != counter;
    }
  }

  lemma {:induction false} CompiledConforms(m: Machine, tableOf: State -> PageTable, lock: Value, counter: Value)
    requires m.inner == Compiled(tableOf, lock, counter)
    ensures Conforms(m, CompiledConvention(tableOf, lock, counter))
  {
    var c := CompiledConvention(tableOf, lock, counter);
    forall s: State | s.rip == m.innerAt && !s.user && c.Room(s) && c.answers(s)
      ensures Returned(c, s, m.inner(s))
    {
      CompiledReturns(s, tableOf, lock, counter);
    }
  }

  // ---------------------------------------------------------------- calls

  /** A processor with stub and handler, the real flags, and the given function behind them. */
  ghost function Processor(fmask: nat, inner: State -> State): Machine
    requires fmask < WORD
  {
    Machine(Laid(0x1000, STUB) + Laid(0x2000, Handler(0x3000)), 0x2000,
            f => if f >= 0 then MaskFlags(f, fmask) else 0, f => if f >= 0 then SysretFlags(f) else 0, 0x3000, inner)
  }

  const KERNEL_TOP: Value := 0x8000
  const THREAD_DATA: Value := 0x7000

  /** A caller about to write one byte at address 0x5000. */
  function Caller(flags: nat, word: Value): State {
    State(Regs(0, 0, 1, 0x5000, 0, WRITE, 0, 0x6000, 0, 0, 0, 0, 0, 0, 0, 0), 0x1000, flags, 0, THREAD_DATA, true,
          map[THREAD_DATA := KERNEL_TOP, 0xA000 := word])
  }

  lemma {:induction false} CallerCalls(fmask: nat, inner: State -> State, flags: nat, word: Value) returns (ss: seq<State>)
    requires fmask < WORD
    ensures CallTrace(Processor(fmask, inner), ss, KERNEL_TOP, THREAD_DATA) && ss[0] == Caller(flags, word)
    ensures RealFlags(Processor(fmask, inner), fmask)
  {
    ss := CallHappens(Processor(fmask, inner), Caller(flags, word), KERNEL_TOP, THREAD_DATA);
  }

  /** A page table kept in one word: page 5 belongs to the user if the word is 1. */
  ghost function TableAt(root: Value): State -> PageTable {
    (s: State) => if Load(s.mem, root) == 1 then map[5 := Mapped(Flags(true, false, true))] else map[]
  }

  lemma {:induction false} OneByteAnswer(s: State, root: Value)
    requires Args(s) == Args(Caller(0, 0))
    ensures Answers(TableAt(root)(s), Args(s))
    ensures Answer(TableAt(root)(s), Args(s)) == if Load(s.mem, root) == 1 then 1 else WORD - 1
  {
    var table := TableAt(root)(s);
    MinusOne();
    assert PageOf(0x5000) == 5 && EveryByteAccessible(table, 0x5000, 1, ReadOnly) <==> Accessible(table, 5, ReadOnly);
  }

  ghost function SomeFunction(): State -> State {
    Compiled(TableAt(0xA000), 0xB000, 0x9000)
  }

  ghost function SomeConvention(): Convention {
    CompiledConvention(TableAt(0xA000), 0xB000, 0x9000)
  }

  lemma {:induction false} CallerEntry(m: Machine, word: Value)
    ensures var e := Entered(m, Caller(USER_FLAGS, word), KERNEL_TOP, THREAD_DATA);
      Args(e) == Args(Caller(0, 0)) && Load(e.mem, 0xA000) == word && Load(e.mem, 0xB000) == 0
  {
  }

  lemma {:induction false} CallerUndisturbed(m: Machine, word: Value)
    requires AbiEntry(Entered(m, Caller(USER_FLAGS, word), KERNEL_TOP, THREAD_DATA))
    ensures Undisturbed(m, SomeConvention(), Caller(USER_FLAGS, word), KERNEL_TOP, THREAD_DATA)
  {
    CallerEntry(m, word);
    OneByteAnswer(Entered(m, Caller(USER_FLAGS, word), KERNEL_TOP, THREAD_DATA), 0xA000);
  }

  /**
   * The conditions on processor, function and call can be met together, by a function that relies on
   * the ABI and a lock and whose answer lies in memory: the same call of the same function gives the
   * length or the refusal, as the page table in memory says.
   */
  lemma {:induction false} SomeSystemCall(mapped: bool) returns (m: Machine, c: Convention, ss: seq<State>)
    ensures m == Processor(512, SomeFunction()) && c == SomeConvention()
    ensures CallTrace(m, ss, KERNEL_TOP, THREAD_DATA) && Conforms(m, c) && Undisturbed(m, c, ss[0], KERNEL_TOP, THREAD_DATA)
    ensures ss[0] == Caller(USER_FLAGS, if mapped then 1 else 0)
    ensures ss[CALL_LENGTH].regs.rax == if mapped then 1 else WORD - 1
  {
    var word := if mapped then 1 else 0;
    m, c := Processor(512, SomeFunction()), SomeConvention();
    CompiledConforms(m, TableAt(0xA000), 0xB000, 0x9000);
    ss := CallerCalls(512, SomeFunction(), USER_FLAGS, word);
    UserFlagBit(DIRECTION_FLAG);
    EnteredByAbi(m, ss, KERNEL_TOP, THREAD_DATA, 512);
    ReachesInner(m, ss, KERNEL_TOP, THREAD_DATA);
    CallerUndisturbed(m, word);
    SystemCallIsDirectCall(m, c, ss, KERNEL_TOP, THREAD_DATA);
    CallerEntry(m, word);
    OneByteAnswer(Entered(m, Caller(USER_FLAGS, word), KERNEL_TOP, THREAD_DATA), 0xA000);
  }

  /**
   * With only the interrupt flag in the mask register, as the kernel sets it, a caller that has the
   * direction flag set makes the kernel's function start with it set.
   */
  lemma {:induction false} DirectionFlagArrives(inner: State -> State) returns (ss: seq<State>)
    ensures CallTrace(Processor(512, inner), ss, KERNEL_TOP, THREAD_DATA) && KERNEL_TOP % 16 == 0
    ensures ss[0].rflags >= 0 && Bit(ss[0].rflags, DIRECTION_FLAG) && !AbiEntry(ss[AT_INNER])
  {
    assert Pow2(9) == 512 && Pow2(10) == 1024;
    PowBit(9, DIRECTION_FLAG);
    PowBit(10, DIRECTION_FLAG);
    ss := CallerCalls(512, inner, 1024, 0);
    EnteredByAbi(Processor(512, inner), ss, KERNEL_TOP, THREAD_DATA, 512);
  }
}
