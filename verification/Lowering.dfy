/**
 The code each target emits. The two emitters share one skeleton, which is
 written once here; they differ in the sequences for one operation, which are
 written out target by target.
 */
module Lowering {
  import opened Words
  import opened Core
  import opened Targets
  import opened Machine

  // ----- moves -----

  /** One word from one location to another, through register 0 when both are in the frame. */
  function Move(t: Target, into: Operand, from: Operand): seq<Instr> {
    if into == from && (into.Reg? || t.A64?) then []
    else if into.Reg? || from.Reg? then [Mov(into, from)]
    else [Mov(Reg(0), from), Mov(into, Reg(0))]
  }

  function MoveAll(t: Target, moves: seq<(Operand, Operand)>): seq<Instr> {
    if moves == [] then []
    else Move(t, moves[0].0, moves[0].1) + MoveAll(t, moves[1..])
  }

  /** AArch64 computes in registers: a spilled operand is loaded into `scratch` first. */
  function A64Register(o: Operand, scratch: nat): nat {
    if o.Reg? then o.reg else scratch
  }

  function A64Load(o: Operand, scratch: nat): seq<Instr> {
    if o.Reg? then [] else [Mov(Reg(scratch), o)]
  }

  function A64Store(into: nat, result: Operand): seq<Instr> {
    if result.Reg? then [] else [Mov(result, Reg(into))]
  }

  // ----- one operation -----

  function LiteralCode(result: Operand, value: Int64): seq<Instr> {
    if result.Reg? then [Imm(result.reg, value)] else [Imm(0, value), Mov(result, Reg(0))]
  }

  function TextLiteralCode(result: Operand, text: string): seq<Instr> {
    if result.Reg? then [TextAddress(result.reg, text)] else [TextAddress(0, text), Mov(result, Reg(0))]
  }

  function NegateCode(t: Target, result: Operand): seq<Instr> {
    match t
    case X64 => [NegFlags(result, result), TrapIf(IfOverflow, NegateOverflow)]
    case A64 =>
      var into := A64Register(result, 0);
      A64Load(result, 0) + [NegFlags(Reg(into), Reg(into)), TrapIf(IfOverflow, NegateOverflow)]
      + A64Store(into, result)
  }

  function CondOf(op: BinaryOp): Cond {
    match op
    case NotEqual => IfNotEqual
    case Less => IfLess
    case LessEqual => IfLessEqual
    case Greater => IfGreater
    case GreaterEqual => IfGreaterEqual
    case _ => IfEqual
  }

  /** Leaves left minus right in the flags. */
  function CompareCode(t: Target, left: Operand, right: Operand): seq<Instr> {
    match t
    case X64 =>
      if left.Reg? || right.Reg? then [Cmp(left, right)]
      else [Mov(Reg(RAX), right), Cmp(left, Reg(RAX))]
    case A64 =>
      A64Load(left, 0) + A64Load(right, 1) + [Cmp(Reg(A64Register(left, 0)), Reg(A64Register(right, 1)))]
  }

  function AddCode(into: Operand, right: Operand): seq<Instr> {
    [AddFlags(into, into, right), TrapIf(IfOverflow, AddOverflow)]
  }

  function SubCode(into: Operand, right: Operand): seq<Instr> {
    [SubFlags(into, into, right), TrapIf(IfOverflow, SubtractOverflow)]
  }

  function DivideZero(op: BinaryOp): TrapKind {
    if op.FloorDivide? then FloorDivideZero else ModuloZero
  }

  /**
   x86-64 division: zero and minus one are handled before `idiv`, which would
   fault on them; the truncated answer is then corrected toward minus infinity.
   */
  function X64DivideCode(op: BinaryOp, result: Operand, divisor: Operand): seq<Instr> {
    if op.FloorModulo? then
      [Mov(Reg(RCX), divisor), Mov(Reg(RAX), result), Test(RCX), TrapIf(IfEqual, DivideZero(op)), CmpMinusOne(RCX),
       Jcc(IfNotEqual, 2), Zero(RAX), Jmp(8), Cqo, Idiv(RCX), Mov(Reg(RAX), Reg(RDX)),
       Test(RDX), Jcc(IfEqual, 3), XorFlags(RDX, RCX), Jcc(IfNotSign, 1), AddFlags(Reg(RAX), Reg(RAX), Reg(RCX))]
    else
      [Mov(Reg(RCX), divisor), Mov(Reg(RAX), result), Test(RCX), TrapIf(IfEqual, DivideZero(op)), CmpMinusOne(RCX),
       Jcc(IfNotEqual, 3), NegFlags(Reg(RAX), Reg(RAX)), TrapIf(IfOverflow, FloorDivideOverflow), Jmp(7),
       Cqo, Idiv(RCX),
       Test(RDX), Jcc(IfEqual, 3), XorFlags(RDX, RCX), Jcc(IfNotSign, 1), Decrement(RAX)]
  }

  /** AArch64 division: `sdiv` never faults, so both guards prevent wrong answers instead. */
  function A64DivideCode(op: BinaryOp, result: Operand, divisor: Operand): seq<Instr> {
    if op.FloorModulo? then
      [Mov(Reg(0), result), Mov(Reg(1), divisor), TrapIfZero(1, DivideZero(op)), CmpMinusOne(1),
       Jcc(IfNotEqual, 2), Zero(0), Jmp(6), Sdiv(9, 0, 1), Msub(0, 9, 1, 0), Cbz(0, 3),
       Eor(11, 0, 1), TbzSign(11, 1), AddPlain(0, 0, 1)]
    else
      [Mov(Reg(0), result), Mov(Reg(1), divisor), TrapIfZero(1, DivideZero(op)), CmpMinusOne(1),
       Jcc(IfNotEqual, 3), NegFlags(Reg(0), Reg(0)), TrapIf(IfOverflow, FloorDivideOverflow), Jmp(7),
       Sdiv(9, 0, 1), Msub(10, 9, 1, 0), Mov(Reg(0), Reg(9)), Cbz(10, 3),
       Eor(11, 10, 1), TbzSign(11, 1), Decrement(0)]
  }

  function X64BinaryCode(op: BinaryOp, result: Operand, right: Operand): seq<Instr> {
    match op
    case Add =>
      if result.Reg? || right.Reg? then AddCode(result, right)
      else [Mov(Reg(RAX), right)] + AddCode(result, Reg(RAX))
    case Subtract =>
      if result.Reg? || right.Reg? then SubCode(result, right)
      else [Mov(Reg(RAX), right)] + SubCode(result, Reg(RAX))
    case Multiply =>
      if result.Reg? then [Imul(result.reg, right), TrapIf(IfOverflow, MultiplyOverflow)]
      else [Mov(Reg(RAX), result), Imul(RAX, right), TrapIf(IfOverflow, MultiplyOverflow), Mov(result, Reg(RAX))]
    case FloorDivide => X64DivideCode(op, result, right) + Move(X64, result, Reg(RAX))
    case FloorModulo => X64DivideCode(op, result, right) + Move(X64, result, Reg(RAX))
    case _ => CompareCode(X64, result, right) + [SetBool(RAX, CondOf(op)), Mov(result, Reg(RAX))]
  }

  /** The register work between the operand loads and the store of the result. */
  function A64Compute(op: BinaryOp, into: nat, left: nat, right: nat): seq<Instr> {
    match op
    case Add => [AddFlags(Reg(into), Reg(left), Reg(right)), TrapIf(IfOverflow, AddOverflow)]
    case Subtract => [SubFlags(Reg(into), Reg(left), Reg(right)), TrapIf(IfOverflow, SubtractOverflow)]
    case Multiply =>
      [MulLow(9, left, right), MulHigh(10, left, right), SignOf(11, 9), Cmp(Reg(10), Reg(11)),
       TrapIf(IfNotEqual, MultiplyOverflow), Mov(Reg(into), Reg(9))]
    case _ => [Cmp(Reg(left), Reg(right)), SetBool(into, CondOf(op))]
  }

  function A64BinaryCode(op: BinaryOp, result: Operand, right: Operand): seq<Instr> {
    if op.FloorDivide? || op.FloorModulo? then
      A64DivideCode(op, result, right) + Move(A64, result, Reg(0))
    else
      var into := A64Register(result, 0);
      A64Load(result, 0) + A64Load(right, 1) + A64Compute(op, into, into, A64Register(right, 1))
      + A64Store(into, result)
  }

  function BinaryCode(t: Target, op: BinaryOp, result: Operand, right: Operand): seq<Instr> {
    if t.X64? then X64BinaryCode(op, result, right) else A64BinaryCode(op, result, right)
  }

  // ----- expressions -----

  /** Moves the w-th written argument, held at depth d + w, into the register of its declaration slot. */
  function BoundaryMoves(t: Target, l: Layout, order: seq<nat>, d: nat): seq<(Operand, Operand)> {
    seq(|order|, w requires 0 <= w < |order| => (Reg(ArgumentRegister(t, order[w])), EvalOperand(l, d + w)))
  }

  /** The syscall boundary: r10, the one allocatable register in it, is filled last. */
  function SyscallMoves(l: Layout, count: nat, d: nat): seq<(Operand, Operand)> {
    var early := [0, 1, 2, 3, 5, 6];
    if count <= SYSCALL_ALLOCATABLE_INDEX then
      seq(count, i requires 0 <= i < count =>
        (Reg(if i < 7 then X64_SYSCALL[i] else 0), EvalOperand(l, d + i)))
    else
      seq(count, i requires 0 <= i < count =>
        var index := if i == count - 1 then SYSCALL_ALLOCATABLE_INDEX else if i < 6 then early[i] else i;
        (Reg(if index < 7 then X64_SYSCALL[index] else 0), EvalOperand(l, d + index)))
  }

  /** Evaluates e, leaving its value in the location of depth d. */
  function ExprCode(t: Target, l: Layout, e: Expr, d: nat): seq<Instr>
    decreases e, 1, 0
  {
    var result := EvalOperand(l, d);
    match e
    case Literal(value) => LiteralCode(result, value)
    case TextLiteral(text) => TextLiteralCode(result, text)
    case Parameter(slot) => Move(t, result, ValueOperand(l, slot))
    case Call(f, _, order) =>
      ArgumentsCode(t, l, e, 0, d) + (MoveAll(t, BoundaryMoves(t, l, order, d))
      + ([CallFunction(f)] + Move(t, result, Reg(0))))
    case Syscall(arguments) =>
      ArgumentsCode(t, l, e, 0, d) + (MoveAll(t, SyscallMoves(l, |arguments|, d))
      + ([KernelCall(|arguments|)] + Move(t, result, Reg(0))))
    case Negate(left) => ExprCode(t, l, left, d) + NegateCode(t, result)
    case Concat(left, right) =>
      ExprCode(t, l, left, d) + (ExprCode(t, l, right, d + 1)
      + (MoveAll(t, ConcatMoves(t, l, d)) + ([CallConcat] + Move(t, result, Reg(0)))))
    case Binary(op, left, right) =>
      ExprCode(t, l, left, d) + (ExprCode(t, l, right, d + 1)
      + BinaryCode(t, op, result, EvalOperand(l, d + 1)))
  }

  function ConcatMoves(t: Target, l: Layout, d: nat): seq<(Operand, Operand)> {
    [(Reg(ArgumentRegister(t, 0)), EvalOperand(l, d)), (Reg(ArgumentRegister(t, 1)), EvalOperand(l, d + 1))]
  }

  /** Evaluates the arguments of e in written order, the w-th at depth d + w. */
  function ArgumentsCode(t: Target, l: Layout, e: Expr, w: nat, d: nat): seq<Instr>
    decreases e, 0, WrittenCount(e) - w
  {
    if w < WrittenCount(e) && HasWritten(e, w) then
      ExprCode(t, l, Written(e, w), d + w) + ArgumentsCode(t, l, e, w + 1, d)
    else []
  }

  // ----- frames -----

  /** Stores every claimed callee-preserved register in its own slot. */
  function SaveMoves(l: Layout): seq<(Operand, Operand)> {
    seq(|l.saved|, i requires 0 <= i < |l.saved| => (SavedOperand(l, i), Reg(l.saved[i])))
  }

  /** Reloads them, last saved first. */
  function RestoreMoves(l: Layout): seq<(Operand, Operand)> {
    seq(|l.saved|, i requires 0 <= i < |l.saved| =>
      (Reg(l.saved[|l.saved| - 1 - i]), SavedOperand(l, |l.saved| - 1 - i)))
  }

  function ParameterMoves(t: Target, l: Layout, parameters: nat): seq<(Operand, Operand)> {
    seq(parameters, s requires 0 <= s < parameters => (ValueOperand(l, s), Reg(ArgumentRegister(t, s))))
  }

  function FrameOpen(t: Target, l: Layout): seq<Instr> {
    [PushFrame, SetFrame] + (if l.TotalSlots() > 0 then [ReserveFrame(l.FrameWords())] else [])
  }

  function PrologueCode(t: Target, l: Layout, parameters: nat): seq<Instr> {
    FrameOpen(t, l) + (MoveAll(t, SaveMoves(l)) + MoveAll(t, ParameterMoves(t, l, parameters)))
  }

  /** PrologueCode undone up to the return itself; x86-64's `leave` is the last two instructions in one. */
  function TeardownCode(t: Target, l: Layout): seq<Instr> {
    MoveAll(t, RestoreMoves(l)) + [DropFrame, PopFrame]
  }

  function EpilogueCode(t: Target, l: Layout): seq<Instr> {
    TeardownCode(t, l) + [Ret]
  }

  // ----- statements -----

  /** The value of a return statement that is lowered by TailCode. */
  predicate IsTail(value: Expr) {
    value.Call?
  }

  function SelfMoves(l: Layout, order: seq<nat>): seq<(Operand, Operand)> {
    seq(|order|, w requires 0 <= w < |order| => (ValueOperand(l, order[w]), EvalOperand(l, w)))
  }

  /**
   A tail call emitted `at` instructions into the body. A call to the function
   itself moves its arguments to the bindings and starts the body over; any
   other undoes the prologue and jumps, so that the callee replaces the caller.
   */
  function TailCode(t: Target, l: Layout, self: nat, call: Expr, at: nat): seq<Instr>
    requires call.Call?
  {
    var arguments := ArgumentsCode(t, l, call, 0, 0);
    if call.function_ == self then
      var moves := MoveAll(t, SelfMoves(l, call.order));
      arguments + (moves + [Jmp(-(at + |arguments| + |moves| + 1))])
    else
      arguments + (MoveAll(t, BoundaryMoves(t, l, call.order, 0)) + (TeardownCode(t, l) + [TailJump(call.function_)]))
  }

  /** Evaluates a returned value into register 0. */
  function ResultCode(t: Target, l: Layout, value: Expr): seq<Instr> {
    ExprCode(t, l, value, 0) + Move(t, Reg(0), EvalOperand(l, 0))
  }

  /** Returning from `at` instructions into the body: a tail call, or a value and a branch to the epilogue. */
  function ReturnCode(t: Target, l: Layout, self: nat, value: Expr, at: nat, epilogue: int, closing: bool): seq<Instr> {
    if IsTail(value) then TailCode(t, l, self, value, at)
    else
      var code := ResultCode(t, l, value);
      code + (if closing then [] else [Jmp(epilogue - (at + |code| + 1))])
  }

  function GuardCode(t: Target, l: Layout, condition: Expr): seq<Instr> {
    if condition.Binary? && IsComparison(condition.op) then
      ExprCode(t, l, condition.left, 0) + (ExprCode(t, l, condition.right, 1)
      + CompareCode(t, EvalOperand(l, 0), EvalOperand(l, 1)))
    else
      var o := EvalOperand(l, 0);
      ExprCode(t, l, condition, 0)
      + (match t
         case X64 => if o.Reg? then [Test(o.reg)] else [Mov(Reg(RAX), o), Test(RAX)]
         case A64 => A64Load(o, 0))
  }

  function Inverse(c: Cond): Cond {
    match c
    case IfOverflow => IfOverflow
    case IfNotSign => IfNotSign
    case IfEqual => IfNotEqual
    case IfNotEqual => IfEqual
    case IfLess => IfGreaterEqual
    case IfLessEqual => IfGreater
    case IfGreater => IfLessEqual
    case IfGreaterEqual => IfLess
  }

  /** The conditional branch of a guard: taken exactly when Decides gives false. */
  function SkipBranch(t: Target, l: Layout, condition: Expr, disp: int): Instr {
    if condition.Binary? && IsComparison(condition.op) then Jcc(Inverse(CondOf(condition.op)), disp)
    else if t.X64? then Jcc(IfEqual, disp)
    else Cbz(A64Register(EvalOperand(l, 0), 0), disp)
  }

  function StmtCode(t: Target, l: Layout, self: nat, s: Stmt, at: nat, epilogue: int, closing: bool): seq<Instr> {
    match s
    case IfReturn(condition, value) =>
      var guard := GuardCode(t, l, condition);
      var guarded := ReturnCode(t, l, self, value, at + |guard| + 1, epilogue, false);
      guard + ([SkipBranch(t, l, condition, |guarded|)] + guarded)
    case ReturnStmt(value) => ReturnCode(t, l, self, value, at, epilogue, closing)
    case PrintStmt(value) =>
      ExprCode(t, l, value, 0) + (Move(t, Reg(ArgumentRegister(t, 0)), EvalOperand(l, 0)) + [CallPrint])
    case Let(slot, value) =>
      ExprCode(t, l, value, 0) + Move(t, ValueOperand(l, slot), EvalOperand(l, 0))
    case Evaluate(value) => ExprCode(t, l, value, 0)
  }

  /** The statements from the i-th on, emitted `at` instructions into the body. */
  function BodyCode(t: Target, l: Layout, self: nat, body: seq<Stmt>, i: nat, at: nat, epilogue: int): seq<Instr>
    decreases |body| - i
  {
    if i >= |body| then []
    else
      var code := StmtCode(t, l, self, body[i], at, epilogue, i + 1 == |body|);
      code + BodyCode(t, l, self, body, i + 1, at + |code|, epilogue)
  }

  predicate HasReturn(body: seq<Stmt>) {
    exists i :: 0 <= i < |body| && body[i].ReturnStmt?
  }

  /** A body no `return` closes answers zero. */
  function ImplicitResult(body: seq<Stmt>): seq<Instr> {
    if HasReturn(body) then [] else [Zero(0)]
  }

  /** Where the epilogue lies, counted from the start of the body. */
  function EpilogueAt(t: Target, l: Layout, self: nat, body: seq<Stmt>): nat {
    |BodyCode(t, l, self, body, 0, 0, 0)| + |ImplicitResult(body)|
  }

  function FunctionCode(t: Target, l: Layout, self: nat, f: Function): seq<Instr> {
    PrologueCode(t, l, f.parameters)
    + (BodyCode(t, l, self, f.body, 0, 0, EpilogueAt(t, l, self, f.body))
    + (ImplicitResult(f.body) + EpilogueCode(t, l)))
  }

  /** Every function of the program in order, after the entry stub. */
  function FunctionsCode(t: Target, layouts: seq<Layout>, functions: seq<Function>, i: nat): seq<Instr>
    decreases |functions| - i
  {
    if i >= |functions| || i >= |layouts| then []
    else FunctionCode(t, layouts[i], i, functions[i]) + FunctionsCode(t, layouts, functions, i + 1)
  }

  function EntryStub(main: nat): seq<Instr> {
    [CallFunction(main), Exit]
  }

  /** The entry address of function i when the functions from index 0 start at `base`. */
  function EntryOf(t: Target, layouts: seq<Layout>, functions: seq<Function>, i: nat, base: nat): nat
    requires i <= |functions| && i <= |layouts|
  {
    if i == 0 then base
    else EntryOf(t, layouts, functions, i - 1, base) + |FunctionCode(t, layouts[i - 1], i - 1, functions[i - 1])|
  }

  function ProgramImage(t: Target, p: Program, layouts: seq<Layout>, junk: Junk): Image {
    Image(t, p,
      EntryStub(p.main) + FunctionsCode(t, layouts, p.functions, 0),
      seq(|p.functions|, i requires 0 <= i < |p.functions| =>
        if i <= |layouts| then EntryOf(t, layouts, p.functions, i, 2) else 0),
      junk)
  }
}
