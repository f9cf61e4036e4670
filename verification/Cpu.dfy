/**
 * The part of an x86-64 processor the system call path runs on. Memory is a map of 64-bit words
 * at 8-aligned addresses (absent words are zero), and instructions sit at consecutive addresses.
 */
module Cpu {
  import opened Bits

  /** A register value; the operations below keep values within 64 bits. */
  type Value = int

  datatype Reg = Rax | Rbx | Rcx | Rdx | Rsi | Rdi | Rbp | Rsp | R8 | R9 | R10 | R11 | R12 | R13 | R14 | R15

  datatype Regs = Regs(
    rax: Value, rbx: Value, rcx: Value, rdx: Value, rsi: Value, rdi: Value, rbp: Value, rsp: Value,
    r8: Value, r9: Value, r10: Value, r11: Value, r12: Value, r13: Value, r14: Value, r15: Value)
  {
    function Get(r: Reg): Value {
      match r
      case Rax => rax case Rbx => rbx case Rcx => rcx case Rdx => rdx
      case Rsi => rsi case Rdi => rdi case Rbp => rbp case Rsp => rsp
      case R8 => r8 case R9 => r9 case R10 => r10 case R11 => r11
      case R12 => r12 case R13 => r13 case R14 => r14 case R15 => r15
    }

    function Set(r: Reg, w: Value): Regs {
      match r
      case Rax => this.(rax := w) case Rbx => this.(rbx := w) case Rcx => this.(rcx := w) case Rdx => this.(rdx := w)
      case Rsi => this.(rsi := w) case Rdi => this.(rdi := w) case Rbp => this.(rbp := w) case Rsp => this.(rsp := w)
      case R8 => this.(r8 := w) case R9 => this.(r9 := w) case R10 => this.(r10 := w) case R11 => this.(r11 := w)
      case R12 => this.(r12 := w) case R13 => this.(r13 := w) case R14 => this.(r14 := w) case R15 => this.(r15 := w)
    }
  }

  datatype Instr =
    | Push(src: Reg)
    | Pop(dst: Reg)
    | Mov(dst: Reg, src: Reg)
    | MovImm(dst: Reg, imm: Value)
    | StoreGs(offset: nat, src: Reg)
    | LoadGs(dst: Reg, offset: nat)
    | Swapgs
    | Call(target: Value)
    | Ret
    | Leave
    | Syscall
    | Sysretq

  /** `gs` is the active GS base, `kernelGs` the one `swapgs` exchanges it with; `user` is privilege level 3. */
  datatype State = State(regs: Regs, rip: Value, rflags: Value, gs: Value, kernelGs: Value, user: bool, mem: map<Value, Value>)

  function Load(mem: map<Value, Value>, a: Value): Value {
    if a in mem then mem[a] else 0
  }

  function Up(a: Value, n: nat): Value {
    if a + n < WORD then a + n else a + n - WORD
  }

  function Down(a: Value): Value {
    if a >= 8 then a - 8 else a - 8 + WORD
  }

  /**
   * A processor: its program, the address system calls enter at, what entering and leaving does
   * to the flags, and the function at `innerAt`.
   */
  datatype Machine = Machine(
    code: map<Value, Instr>, lstar: Value, mask: Value -> Value, sysret: Value -> Value, innerAt: Value, inner: State -> State)

  function PushWord(s: State, w: Value): State {
    s.(regs := s.regs.(rsp := Down(s.regs.rsp)), mem := s.mem[Down(s.regs.rsp) := w])
  }

  /** One instruction; `rip` has already moved to the next one. */
  function Exec(m: Machine, s: State, i: Instr): State {
    match i
    case Push(r) => PushWord(s, s.regs.Get(r))
    case Pop(r) => s.(regs := s.regs.(rsp := Up(s.regs.rsp, 8)).Set(r, Load(s.mem, s.regs.rsp)))
    case Mov(d, r) => s.(regs := s.regs.Set(d, s.regs.Get(r)))
    case MovImm(d, w) => s.(regs := s.regs.Set(d, w))
    case StoreGs(o, r) => s.(mem := s.mem[Up(s.gs, o) := s.regs.Get(r)])
    case LoadGs(d, o) => s.(regs := s.regs.Set(d, Load(s.mem, Up(s.gs, o))))
    case Swapgs => s.(gs := s.kernelGs, kernelGs := s.gs)
    case Call(target) => PushWord(s, s.rip).(rip := target)
    case Ret => s.(rip := Load(s.mem, s.regs.rsp), regs := s.regs.(rsp := Up(s.regs.rsp, 8)))
    case Leave => s.(regs := s.regs.(rsp := Up(s.regs.rbp, 8), rbp := Load(s.mem, s.regs.rbp)))
    case Syscall =>
      s.(regs := s.regs.(rcx := s.rip, r11 := s.rflags), rflags := m.mask(s.rflags), rip := m.lstar, user := false)
    case Sysretq => s.(rip := s.regs.rcx, rflags := m.sysret(s.regs.r11), user := true)
  }

  /** What is found at an address: the kernel's function as a whole, an instruction, or nothing. */
  datatype Fetching = Inner | Fetched(instr: Instr) | Nothing

  function Fetch(m: Machine, a: Value): Fetching {
    if a == m.innerAt then Inner else if a in m.code then Fetched(m.code[a]) else Nothing
  }

  function Step(m: Machine, s: State): State {
    match Fetch(m, s.rip)
    case Inner => m.inner(s)
    case Fetched(i) => Exec(m, s.(rip := s.rip + 1), i)
    case Nothing => s
  }

  predicate StepHolds(m: Machine, ss: seq<State>, i: nat)
    requires i + 1 < |ss|
  {
    ss[i + 1] == Step(m, ss[i])
  }

  /** Successive states of the processor. */
  ghost predicate IsTrace(m: Machine, ss: seq<State>) {
    forall i: nat {:trigger StepHolds(m, ss, i)} :: i + 1 < |ss| ==> StepHolds(m, ss, i)
  }

  /** Every state has a trace of every length. */
  lemma {:induction false} TraceExists(m: Machine, s: State, n: nat) returns (ss: seq<State>)
    ensures |ss| == n + 1 && ss[0] == s && IsTrace(m, ss)
  {
    if n == 0 {
      ss := [s];
    } else {
      var front := TraceExists(m, s, n - 1);
      ss := front + [Step(m, front[n - 1])];
      forall i: nat | i + 1 < |ss|
        ensures StepHolds(m, ss, i)
      {
        if i + 1 < n { assert StepHolds(m, front, i); }
      }
    }
  }

  /** The program is in memory from `base` on. */
  ghost predicate Installed(m: Machine, base: Value, program: seq<Instr>) {
    forall i {:trigger program[i]} :: 0 <= i < |program| ==> Fetch(m, base + i) == Fetched(program[i])
  }

  function At(base: Value, program: seq<Instr>, a: Value): Instr
    requires base <= a < base + |program|
  {
    program[a - base]
  }

  /** Code memory that holds just the program. */
  function Laid(base: Value, program: seq<Instr>): map<Value, Instr> {
    map a: Value | base <= a < base + |program| :: At(base, program, a)
  }

  /** The instruction at index `i` of an installed program is executed. */
  lemma {:induction false} Advance(m: Machine, ss: seq<State>, n: nat, base: Value, program: seq<Instr>, i: nat)
    requires IsTrace(m, ss) && n + 1 < |ss| && i < |program| && Installed(m, base, program) && ss[n].rip == base + i
    ensures ss[n + 1] == Exec(m, ss[n].(rip := base + i + 1), program[i])
  {
    assert StepHolds(m, ss, n);
    assert Fetch(m, ss[n].rip) == Fetched(program[i]);
  }

  // ---------------------------------------------------------------- the flags of the real processor

  /** Bits `sysretq` takes from r11 (Intel SDM volume 2, SYSRET): all but RF, VM and the reserved ones. */
  const SYSRET_FLAGS: nat := 0x3C7FD7

  function SysretFlags(r11: nat): (f: nat) {
    Or(And(r11, SYSRET_FLAGS), 2)
  }

  /** The flags left on entry: those set in the mask register are cleared. */
  function MaskFlags(rflags: nat, fmask: nat): (f: nat)
    requires fmask < WORD
  {
    WordIsPow2();
    And(rflags, Not(64, fmask))
  }

  ghost predicate RealFlags(m: Machine, fmask: nat)
    requires fmask < WORD
  {
    forall f: nat :: m.mask(f) == MaskFlags(f, fmask) && m.sysret(f) == SysretFlags(f)
  }

  /** Returning to user mode changes no flag that an earlier return left. */
  lemma {:induction false} SysretFlagsIdempotent(f: nat)
    ensures SysretFlags(SysretFlags(f)) == SysretFlags(f)
  {
    var once := SysretFlags(f);
    forall i: nat
      ensures Bit(SysretFlags(once), i) <==> Bit(once, i)
    {
      OrBit(And(f, SYSRET_FLAGS), 2, i);
      AndBit(f, SYSRET_FLAGS, i);
      OrBit(And(once, SYSRET_FLAGS), 2, i);
      AndBit(once, SYSRET_FLAGS, i);
    }
    SameBits(SysretFlags(once), once);
  }

  /** A return to user mode leaves this bit as it is, provided bit 1 is set. */
  predicate TakenOver(i: nat) {
    i == 1 || Bit(SYSRET_FLAGS, i)
  }

  lemma {:induction false} SysretBit(f: nat, i: nat)
    ensures Bit(SysretFlags(f), i) <==> (Bit(f, i) && TakenOver(i)) || i == 1
  {
    OrBit(And(f, SYSRET_FLAGS), 2, i);
    AndBit(f, SYSRET_FLAGS, i);
    PowBit(1, i);
    assert Pow2(1) == 2;
  }

  /** Which flags a return to user mode leaves alone, bit by bit. */
  lemma {:induction false} SysretKeeps(f: nat)
    ensures SysretFlags(f) == f <==> Bit(f, 1) && forall i: nat :: Bit(f, i) ==> TakenOver(i)
  {
    var after := SysretFlags(f);
    forall i: nat
      ensures Bit(after, i) <==> (Bit(f, i) && TakenOver(i)) || i == 1
    {
      SysretBit(f, i);
    }
    if Bit(f, 1) && forall i: nat :: Bit(f, i) ==> TakenOver(i) {
      SameBits(after, f);
    } else {
      assert Bit(after, 1);
    }
  }

  /** A flag is set on entry if it was set before and is not in the mask register. */
  lemma {:induction false} MaskedBit(rflags: nat, fmask: nat, i: nat)
    requires fmask < WORD && i < 64
    ensures Bit(MaskFlags(rflags, fmask), i) <==> Bit(rflags, i) && !Bit(fmask, i)
  {
    WordIsPow2();
    NotBit(64, fmask, i);
    AndBit(rflags, Not(64, fmask), i);
  }
}
