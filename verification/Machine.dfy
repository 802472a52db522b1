/**
 The instructions the function back end emits on x86-64 and AArch64, and a
 machine that runs them: registers, a word-addressed stack, flags, a program
 counter and the trace of what was observed.
 */
module Machine {
  import opened Words
  import opened Division
  import opened Core
  import opened Targets

  datatype Cond = IfOverflow | IfEqual | IfNotEqual | IfNotSign
                | IfLess | IfLessEqual | IfGreater | IfGreaterEqual

  datatype Flags = Flags(zero: bool, sign: bool, overflow: bool)

  datatype Instr =
    // moves, both targets (`mov`, `ldr`, `str`, immediates, Text addresses)
    | Mov(into: Operand, from: Operand)
    | Imm(reg: nat, value: Int64)
    | TextAddress(reg: nat, text: string)
    | Zero(reg: nat)
    // flag-setting arithmetic: `add`/`adds`, `sub`/`subs`, `neg`/`negs`, `imul`, `xor`
    | AddFlags(into: Operand, left: Operand, right: Operand)
    | SubFlags(into: Operand, left: Operand, right: Operand)
    | NegFlags(into: Operand, from: Operand)
    | Imul(reg: nat, from: Operand)
    | XorFlags(reg: nat, other: nat)
    // `cmp`, `cmp reg, -1` / `cmn reg, #1`, `test reg, reg`
    | Cmp(left: Operand, right: Operand)
    | CmpMinusOne(reg: nat)
    | Test(reg: nat)
    // `setcc al; movzx eax, al` and `cset`
    | SetBool(reg: nat, cond: Cond)
    // `dec reg` and `sub reg, reg, #1`
    | Decrement(reg: nat)
    // x86-64 division
    | Cqo
    | Idiv(reg: nat)
    // AArch64 arithmetic that leaves the flags alone
    | AddPlain(rd: nat, rn: nat, rm: nat)
    | MulLow(rd: nat, rn: nat, rm: nat)
    | MulHigh(rd: nat, rn: nat, rm: nat)
    | SignOf(rd: nat, rn: nat)
    | Sdiv(rd: nat, rn: nat, rm: nat)
    | Msub(rd: nat, rn: nat, rm: nat, ra: nat)
    | Eor(rd: nat, rn: nat, rm: nat)
    // local branches, relative to the next instruction
    | Jmp(disp: int)
    | Jcc(cond: Cond, disp: int)
    | Cbz(reg: nat, disp: int)
    | TbzSign(reg: nat, disp: int)
    // branches to the trap stubs
    | TrapIf(cond: Cond, kind: TrapKind)
    | TrapIfZero(reg: nat, kind: TrapKind)
    // calls, tail branches and runtime helpers
    | CallFunction(function_: nat)
    | TailJump(function_: nat)
    | CallPrint
    | CallConcat
    | KernelCall(count: nat)
    | Exit
    // frames: `push rbp` / `stp x29, x30, [sp, #-16]!`, then the frame pointer and the frame
    | PushFrame
    | SetFrame
    | ReserveFrame(words: nat)
    | DropFrame
    | PopFrame
    | Ret

  datatype Machine = Machine(
    regs: map<int, Word>,
    mem: map<int, Word>,
    sp: int,
    fp: int,
    flags: Flags,
    out: seq<Event>)

  function Get(m: map<int, Word>, a: int): Word {
    if a in m then m[a] else Undefined
  }

  /** x86-64 addresses slots down from the frame pointer, AArch64 up from the stack pointer. */
  function SlotAddress(t: Target, m: Machine, s: nat): int {
    if t.X64? then m.fp - 1 - s else m.sp + s
  }

  function Read(t: Target, m: Machine, o: Operand): Word {
    match o
    case Reg(r) => Get(m.regs, r)
    case Slot(s) => Get(m.mem, SlotAddress(t, m, s))
  }

  function Write(t: Target, m: Machine, o: Operand, w: Word): Machine {
    match o
    case Reg(r) => m.(regs := m.regs[r := w])
    case Slot(s) => m.(mem := m.mem[SlotAddress(t, m, s) := w])
  }

  function FlagsOfDifference(a: Int64, b: Int64): Flags {
    Flags(Wrap(a - b) == 0, Wrap(a - b) < 0, !Fits(a - b))
  }

  function FlagsOf(n: Int64): Flags {
    Flags(n == 0, n < 0, false)
  }

  predicate Holds(c: Cond, f: Flags) {
    match c
    case IfOverflow => f.overflow
    case IfEqual => f.zero
    case IfNotEqual => !f.zero
    case IfNotSign => !f.sign
    case IfLess => f.sign != f.overflow
    case IfLessEqual => f.zero || f.sign != f.overflow
    case IfGreater => !f.zero && f.sign == f.overflow
    case IfGreaterEqual => f.sign == f.overflow
  }

  /** The sign of the exclusive or of two numbers: the only thing the code asks of it. */
  function XorSign(a: Int64, b: Int64): Int64 {
    if (a < 0) != (b < 0) then -1 else 0
  }

  // ----- one instruction -----

  /** Where a local instruction leads: on, with a relative skip, to a trap stub, or nowhere. */
  datatype Effect =
    | Next(m: Machine, skip: int)
    | Traps(kind: TrapKind)
    | Faults
    | Transfers

  function On(m: Machine): Effect { Next(m, 0) }

  function IntAt(t: Target, m: Machine, o: Operand): Int64 {
    var w := Read(t, m, o);
    if w.Int? then w.n else 0
  }

  predicate IsInt(t: Target, m: Machine, o: Operand) {
    Read(t, m, o).Int?
  }

  function Put(m: Machine, r: nat, n: Int64): Effect {
    On(m.(regs := m.regs[r := Int(n)]))
  }

  function ExecArithmetic(t: Target, i: Instr, m: Machine): Effect {
    match i
    case AddFlags(into, left, right) =>
      if !IsInt(t, m, left) || !IsInt(t, m, right) then Faults else
      var n := IntAt(t, m, left) + IntAt(t, m, right);
      On(Write(t, m, into, Int(Wrap(n))).(flags := Flags(Wrap(n) == 0, Wrap(n) < 0, !Fits(n))))
    case SubFlags(into, left, right) =>
      if !IsInt(t, m, left) || !IsInt(t, m, right) then Faults else
      var n := IntAt(t, m, left) - IntAt(t, m, right);
      On(Write(t, m, into, Int(Wrap(n))).(flags := Flags(Wrap(n) == 0, Wrap(n) < 0, !Fits(n))))
    case NegFlags(into, from) =>
      if !IsInt(t, m, from) then Faults else
      var n := 0 - IntAt(t, m, from);
      On(Write(t, m, into, Int(Wrap(n))).(flags := Flags(Wrap(n) == 0, Wrap(n) < 0, !Fits(n))))
    case Imul(reg, from) =>
      if !IsInt(t, m, Reg(reg)) || !IsInt(t, m, from) then Faults else
      var n := IntAt(t, m, Reg(reg)) * IntAt(t, m, from);
      On(Write(t, m, Reg(reg), Int(Wrap(n))).(flags := Flags(false, false, !Fits(n))))
    case XorFlags(reg, other) =>
      if !IsInt(t, m, Reg(reg)) || !IsInt(t, m, Reg(other)) then Faults else
      var n := XorSign(IntAt(t, m, Reg(reg)), IntAt(t, m, Reg(other)));
      On(Write(t, m, Reg(reg), Int(n)).(flags := FlagsOf(n)))
    case Cmp(left, right) =>
      if !IsInt(t, m, left) || !IsInt(t, m, right) then Faults else
      On(m.(flags := FlagsOfDifference(IntAt(t, m, left), IntAt(t, m, right))))
    case CmpMinusOne(reg) =>
      if !IsInt(t, m, Reg(reg)) then Faults else
      On(m.(flags := FlagsOfDifference(IntAt(t, m, Reg(reg)), -1)))
    case Test(reg) =>
      if !IsInt(t, m, Reg(reg)) then Faults else
      On(m.(flags := FlagsOf(IntAt(t, m, Reg(reg)))))
    case SetBool(reg, cond) => Put(m, reg, if Holds(cond, m.flags) then 1 else 0)
    case Decrement(reg) =>
      if !IsInt(t, m, Reg(reg)) then Faults else Put(m, reg, Wrap(IntAt(t, m, Reg(reg)) - 1))
    case _ => Faults
  }

  function ExecDivision(t: Target, i: Instr, m: Machine): Effect {
    match i
    case Cqo =>
      if !IsInt(t, m, Reg(RAX)) then Faults else Put(m, RDX, if IntAt(t, m, Reg(RAX)) < 0 then -1 else 0)
    case Idiv(reg) =>
      // divides rdx:rax; faults on zero and on a quotient that does not fit
      if !IsInt(t, m, Reg(RAX)) || !IsInt(t, m, Reg(RDX)) || !IsInt(t, m, Reg(reg)) then Faults else
      var a, b := IntAt(t, m, Reg(RAX)), IntAt(t, m, Reg(reg));
      if IntAt(t, m, Reg(RDX)) != (if a < 0 then -1 else 0) then Faults
      else if b == 0 || !Fits(TruncDiv(a, b)) then Faults
      else
        TruncRemainderFits(a, b);
        On(m.(regs := m.regs[RAX := Int(TruncDiv(a, b))][RDX := Int(TruncMod(a, b))]))
    case Sdiv(rd, rn, rm) =>
      // total: zero for a zero divisor, wrapping for the unrepresentable quotient
      if !IsInt(t, m, Reg(rn)) || !IsInt(t, m, Reg(rm)) then Faults else
      var a, b := IntAt(t, m, Reg(rn)), IntAt(t, m, Reg(rm));
      Put(m, rd, if b == 0 then 0 else Wrap(TruncDiv(a, b)))
    case Msub(rd, rn, rm, ra) =>
      if !IsInt(t, m, Reg(rn)) || !IsInt(t, m, Reg(rm)) || !IsInt(t, m, Reg(ra)) then Faults else
      Put(m, rd, Wrap(IntAt(t, m, Reg(ra)) - IntAt(t, m, Reg(rn)) * IntAt(t, m, Reg(rm))))
    case Eor(rd, rn, rm) =>
      if !IsInt(t, m, Reg(rn)) || !IsInt(t, m, Reg(rm)) then Faults else
      Put(m, rd, XorSign(IntAt(t, m, Reg(rn)), IntAt(t, m, Reg(rm))))
    case AddPlain(rd, rn, rm) =>
      if !IsInt(t, m, Reg(rn)) || !IsInt(t, m, Reg(rm)) then Faults else
      Put(m, rd, Wrap(IntAt(t, m, Reg(rn)) + IntAt(t, m, Reg(rm))))
    case MulLow(rd, rn, rm) =>
      if !IsInt(t, m, Reg(rn)) || !IsInt(t, m, Reg(rm)) then Faults else
      Put(m, rd, Wrap(IntAt(t, m, Reg(rn)) * IntAt(t, m, Reg(rm))))
    case MulHigh(rd, rn, rm) =>
      if !IsInt(t, m, Reg(rn)) || !IsInt(t, m, Reg(rm)) then Faults else
      Put(m, rd, Wrap((IntAt(t, m, Reg(rn)) * IntAt(t, m, Reg(rm))) / TWO64))
    case SignOf(rd, rn) =>
      if !IsInt(t, m, Reg(rn)) then Faults else Put(m, rd, if IntAt(t, m, Reg(rn)) < 0 then -1 else 0)
    case _ => Faults
  }

  function ExecFrame(t: Target, i: Instr, m: Machine): Effect {
    match i
    case PushFrame =>
      // x86-64 pushes rbp; AArch64 pushes x29 with the link register x30 above it
      if t.X64? then On(m.(sp := m.sp - 1, mem := m.mem[m.sp - 1 := Frame(m.fp)]))
      else On(m.(sp := m.sp - 2, mem := m.mem[m.sp - 2 := Frame(m.fp)][m.sp - 1 := Get(m.regs, LINK)]))
    case SetFrame => On(m.(fp := m.sp))
    case ReserveFrame(words) => On(m.(sp := m.sp - words))
    case DropFrame => On(m.(sp := m.fp))
    case PopFrame =>
      var saved := Get(m.mem, m.sp);
      if !saved.Frame? then Faults
      else if t.X64? then On(m.(fp := saved.fp, sp := m.sp + 1))
      else On(m.(fp := saved.fp, sp := m.sp + 2, regs := m.regs[LINK := Get(m.mem, m.sp + 1)]))
    case _ => Faults
  }

  /** x30, where AArch64 keeps the return address. */
  const LINK: nat := 30

  function ExecLocal(t: Target, i: Instr, m: Machine): Effect {
    match i
    case Mov(into, from) => On(Write(t, m, into, Read(t, m, from)))
    case Imm(reg, value) => Put(m, reg, value)
    case TextAddress(reg, text) => On(m.(regs := m.regs[reg := Text(text)]))
    case Zero(reg) => Put(m, reg, 0)
    case AddFlags(_, _, _) => ExecArithmetic(t, i, m)
    case SubFlags(_, _, _) => ExecArithmetic(t, i, m)
    case NegFlags(_, _) => ExecArithmetic(t, i, m)
    case Imul(_, _) => ExecArithmetic(t, i, m)
    case XorFlags(_, _) => ExecArithmetic(t, i, m)
    case Cmp(_, _) => ExecArithmetic(t, i, m)
    case CmpMinusOne(_) => ExecArithmetic(t, i, m)
    case Test(_) => ExecArithmetic(t, i, m)
    case SetBool(_, _) => ExecArithmetic(t, i, m)
    case Decrement(_) => ExecArithmetic(t, i, m)
    case Cqo => ExecDivision(t, i, m)
    case Idiv(_) => ExecDivision(t, i, m)
    case AddPlain(_, _, _) => ExecDivision(t, i, m)
    case MulLow(_, _, _) => ExecDivision(t, i, m)
    case MulHigh(_, _, _) => ExecDivision(t, i, m)
    case SignOf(_, _) => ExecDivision(t, i, m)
    case Sdiv(_, _, _) => ExecDivision(t, i, m)
    case Msub(_, _, _, _) => ExecDivision(t, i, m)
    case Eor(_, _, _) => ExecDivision(t, i, m)
    case Jmp(disp) => Next(m, disp)
    case Jcc(cond, disp) => Next(m, if Holds(cond, m.flags) then disp else 0)
    case Cbz(reg, disp) =>
      if !IsInt(t, m, Reg(reg)) then Faults else Next(m, if IntAt(t, m, Reg(reg)) == 0 then disp else 0)
    case TbzSign(reg, disp) =>
      if !IsInt(t, m, Reg(reg)) then Faults else Next(m, if IntAt(t, m, Reg(reg)) >= 0 then disp else 0)
    case TrapIf(cond, kind) => if Holds(cond, m.flags) then Traps(kind) else On(m)
    case TrapIfZero(reg, kind) =>
      if !IsInt(t, m, Reg(reg)) then Faults
      else if IntAt(t, m, Reg(reg)) == 0 then Traps(kind) else On(m)
    case PushFrame => ExecFrame(t, i, m)
    case SetFrame => ExecFrame(t, i, m)
    case ReserveFrame(_) => ExecFrame(t, i, m)
    case DropFrame => ExecFrame(t, i, m)
    case PopFrame => ExecFrame(t, i, m)
    case _ => Transfers
  }

  // ----- whole images -----

  /** What a clobbered register or a dead stack cell holds after a helper ran; anything at all. */
  type Junk = seq<Event> -> map<int, Word>

  datatype Image = Image(
    target: Target,
    program: Program,
    code: seq<Instr>,
    entry: seq<nat>,
    junk: Junk)

  datatype State =
    | Running(pc: int, m: Machine)
    | Trapped(kind: TrapKind, out: seq<Event>)
    | Exited(status: Word, out: seq<Event>)
    | Crashed

  /** A runtime helper keeps the callee-preserved registers and everything above the stack pointer. */
  function Clobber(image: Image, m: Machine): Machine {
    var junk := image.junk(m.out);
    m.(regs := (map r | r in junk && r !in Preserved(image.target) :: junk[r])
               + (map r | r in m.regs && r in Preserved(image.target) :: m.regs[r]),
       mem := (map a | a in junk && a < m.sp :: junk[a]) + (map a | a in m.mem && a >= m.sp :: m.mem[a]))
  }

  /** The registers a called routine keeps: System V AMD64 ABI, section 3.2.1; AAPCS64, section 6.1.1. */
  function Preserved(t: Target): set<int> {
    if t.X64? then {3, 5, 12, 13, 14, 15} else {19, 20, 21, 22, 23, 24, 25, 26, 27, 28}
  }

  /** The register a runtime helper finds its first or second argument in. */
  function HelperArgument(t: Target, i: nat): nat {
    if t.A64? then i else if i == 0 then 7 else 6
  }

  /** Where the kernel looks: the number in rax, then rdi, rsi, rdx, r10, r8 and r9 (System V AMD64 ABI, section A.2.1). */
  const KERNEL_REGISTERS: seq<nat> := [0, 7, 6, 2, 10, 8, 9]

  /** `syscall` destroys rcx and r11 and answers in rax. */
  function SyscallArguments(m: Machine, count: nat): seq<Word> {
    seq(if count <= 7 then count else 7, i requires 0 <= i < 7 => Get(m.regs, KERNEL_REGISTERS[i]))
  }

  function PushReturn(t: Target, m: Machine, pc: int): Machine {
    if t.X64? then m.(sp := m.sp - 1, mem := m.mem[m.sp - 1 := Return(pc)])
    else m.(regs := m.regs[LINK := Return(pc)])
  }

  function ReturnAddress(t: Target, m: Machine): Word {
    if t.X64? then Get(m.mem, m.sp) else Get(m.regs, LINK)
  }

  function Transfer(image: Image, i: Instr, pc: int, m: Machine): State {
    var t := image.target;
    match i
    case CallFunction(f) => if f < |image.entry| then Running(image.entry[f], PushReturn(t, m, pc + 1)) else Crashed
    case TailJump(f) => if f < |image.entry| then Running(image.entry[f], m) else Crashed
    case Ret =>
      var to := ReturnAddress(t, m);
      if !to.Return? then Crashed
      else Running(to.pc, if t.X64? then m.(sp := m.sp + 1) else m)
    case CallPrint =>
      Running(pc + 1, Clobber(image, m).(out := m.out + [Print(Get(m.regs, HelperArgument(t, 0)))]))
    case CallConcat =>
      var a, b := Get(m.regs, HelperArgument(t, 0)), Get(m.regs, HelperArgument(t, 1));
      if !a.Text? || !b.Text? then Crashed else
      var m' := Clobber(image, m);
      Running(pc + 1, m'.(regs := m'.regs[0 := Text(a.text + b.text)]))
    case KernelCall(count) =>
      var arguments := SyscallArguments(m, count);
      if t.A64? || !AllInts(arguments) then Crashed else
      Running(pc + 1, m.(
        regs := m.regs[RCX := Get(image.junk(m.out), RCX)][R11 := Get(image.junk(m.out), R11)]
                      [RAX := Int(image.program.kernel(m.out, arguments))],
        out := m.out + [Event.Syscall(arguments)]))
    case Exit => Exited(Get(m.regs, 0), m.out)
    case _ => Crashed
  }

  function Step(image: Image, s: State): State {
    if !s.Running? then s
    else if !(0 <= s.pc < |image.code|) then Crashed
    else
      match ExecLocal(image.target, image.code[s.pc], s.m)
      case Next(m, skip) => Running(s.pc + 1 + skip, m)
      case Traps(kind) => Trapped(kind, s.m.out)
      case Faults => Crashed
      case Transfers => Transfer(image, image.code[s.pc], s.pc, s.m)
  }

  function Run(image: Image, s: State, steps: nat): State
    decreases steps
  {
    if steps == 0 then s else Run(image, Step(image, s), steps - 1)
  }
}
