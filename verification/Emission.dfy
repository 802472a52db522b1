/**
 The emitters: they append instructions to the text, remember the branches
 whose targets are not known yet, and patch them when they are.
 */
module Emission {
  import opened Words
  import opened Core
  import opened Targets
  import opened Machine
  import opened Lowering
  import opened Pressure
  import opened Meaning

  /** A local branch with its displacement filled in. */
  function Aimed(branch: Instr, disp: int): Instr {
    match branch
    case Jmp(_) => Jmp(disp)
    case Jcc(cond, _) => Jcc(cond, disp)
    case Cbz(reg, _) => Cbz(reg, disp)
    case TbzSign(reg, _) => TbzSign(reg, disp)
    case _ => branch
  }

  predicate HasArguments(e: Expr) {
    forall w :: 0 <= w < WrittenCount(e) ==> HasWritten(e, w)
  }

  /** Every call node in the tree has the arguments its order names. */
  predicate Complete(e: Expr) {
    match e
    case Call(_, arguments, order) => HasArguments(e) && forall s :: 0 <= s < |arguments| ==> Complete(arguments[s])
    case Syscall(arguments) =>
      0 < |arguments| <= MAX_SYSCALL_ARGUMENTS && forall s :: 0 <= s < |arguments| ==> Complete(arguments[s])
    case Negate(left) => Complete(left)
    case Concat(left, right) => Complete(left) && Complete(right)
    case Binary(_, left, right) => Complete(left) && Complete(right)
    case _ => true
  }

  lemma {:induction false} WellFormedIsComplete(functions: seq<Function>, frameSlots: nat, e: Expr)
    requires WellFormedExpr(functions, frameSlots, e)
    ensures Complete(e)
  {
    match e
    case Call(_, arguments, order) =>
      forall s | 0 <= s < |arguments| ensures Complete(arguments[s]) { WellFormedIsComplete(functions, frameSlots, arguments[s]); }
    case Syscall(arguments) =>
      forall s | 0 <= s < |arguments| ensures Complete(arguments[s]) { WellFormedIsComplete(functions, frameSlots, arguments[s]); }
    case Negate(left) => WellFormedIsComplete(functions, frameSlots, left);
    case Concat(left, right) =>
      WellFormedIsComplete(functions, frameSlots, left);
      WellFormedIsComplete(functions, frameSlots, right);
    case Binary(_, left, right) =>
      WellFormedIsComplete(functions, frameSlots, left);
      WellFormedIsComplete(functions, frameSlots, right);
    case _ =>
  }

  lemma WrittenComplete(e: Expr, w: nat)
    requires Complete(e) && w < WrittenCount(e)
    ensures HasWritten(e, w) && Complete(Written(e, w))
  {
  }

  // ----- which depths are asked for -----

  function ReturnAsks(value: Expr): nat {
    if IsTail(value) then NeedFrom(value, 0) else Need(value)
  }

  /** One past the deepest depth the code of a statement is asked for. */
  function StmtAsks(s: Stmt): nat {
    match s
    case IfReturn(condition, value) => Max(Need(condition), ReturnAsks(value))
    case ReturnStmt(value) => ReturnAsks(value)
    case _ => Need(s.value)
  }

  function BodyAsks(body: seq<Stmt>, i: nat): nat
    decreases |body| - i
  {
    if i >= |body| then 0 else Max(StmtAsks(body[i]), BodyAsks(body, i + 1))
  }

  /** No depth is asked for that the analysis has not counted. */
  lemma {:induction false} AskedIsCounted(body: seq<Stmt>, i: nat)
    ensures BodyAsks(body, i) <= BodyNeed(body, i)
    decreases |body| - i
  {
    if i < |body| { AskedIsCounted(body, i + 1); }
  }

  /** Written argument w stands at depth w, so as many depths are needed as there are arguments. */
  lemma {:induction false} ArgumentsNeed(e: Expr, w: nat)
    requires HasArguments(e) && w < WrittenCount(e)
    ensures NeedFrom(e, w) >= WrittenCount(e)
    decreases WrittenCount(e) - w
  {
    assert HasWritten(e, w);
    if w + 1 < WrittenCount(e) { ArgumentsNeed(e, w + 1); }
  }

  class Emitter {
    const target: Target
    var code: seq<Instr>
    /** Some depth was asked for that the analysis did not count. */
    var refused: bool

    constructor (target: Target)
      ensures this.target == target && code == [] && !refused
    {
      this.target, code, refused := target, [], false;
    }

    /** The location of a depth, which has to be one the analysis counted. */
    method Locate(l: Layout, depth: nat) returns (o: Operand)
      modifies `refused
      ensures o == EvalOperand(l, depth) && refused == (old(refused) || depth >= l.evalDepth)
    {
      if depth >= l.evalDepth { refused := true; }
      o := EvalOperand(l, depth);
    }

    method Put(instrs: seq<Instr>)
      modifies `code
      ensures code == old(code) + instrs
    {
      code := code + instrs;
    }

    /** Emits a branch to be aimed later. */
    method Branch(branch: Instr) returns (at: nat)
      modifies `code
      ensures at == |old(code)| && code == old(code) + [branch]
    {
      at := |code|;
      code := code + [branch];
    }

    /** Aims a branch at an instruction. */
    method Patch(at: nat, destination: int)
      requires at < |code|
      modifies `code
      ensures code == old(code)[at := Aimed(old(code)[at], destination - (at + 1))]
    {
      code := code[at := Aimed(code[at], destination - (at + 1))];
    }

    method EmitMove(into: Operand, from: Operand)
      modifies `code
      ensures code == old(code) + Move(target, into, from)
    {
      if into.Reg? && from.Reg? && into.reg == from.reg { return; }
      if target.A64? && into == from { return; }
      if into.Reg? { Put([Mov(into, from)]); return; }
      if from.Reg? { Put([Mov(into, from)]); return; }
      Put([Mov(Reg(0), from)]);
      Put([Mov(into, Reg(0))]);
    }

    /** Moves a list of words, one after the other. */
    method EmitMoves(moves: seq<(Operand, Operand)>)
      modifies `code
      ensures code == old(code) + MoveAll(target, moves)
    {
      hide Move, MoveAll;
      var k := 0;
      assert moves[k..] == moves;
      while k < |moves|
        invariant 0 <= k <= |moves|
        invariant code + MoveAll(target, moves[k..]) == old(code) + MoveAll(target, moves)
      {
        FirstMove(target, moves, k);
        EmitMove(moves[k].0, moves[k].1);
        k := k + 1;
      }
      NoMoves(target);
      assert moves[k..] == [];
    }

    /** The guard of x86-64 division: divisor in rcx, dividend in rax, zero traps, minus one is answered apart. */
    method X64DivideHead(op: BinaryOp, result: Operand, divisor: Operand) returns (general: nat, done: nat)
      modifies `code
      ensures general == |old(code)| + 5 && done == |code| - 1
      ensures code == old(code) + X64DivideHeadCode(op, result, divisor)
    {
      Put([Mov(Reg(RCX), divisor), Mov(Reg(RAX), result), Test(RCX), TrapIf(IfEqual, DivideZero(op)), CmpMinusOne(RCX)]);
      general := Branch(Jcc(IfNotEqual, 0));
      if op.FloorModulo? {
        Put([Zero(RAX)]);
      } else {
        Put([NegFlags(Reg(RAX), Reg(RAX)), TrapIf(IfOverflow, FloorDivideOverflow)]);
      }
      done := Branch(Jmp(0));
    }

    /** `idiv`, then the correction toward minus infinity when a nonzero remainder has the other sign. */
    method X64DivideTail(op: BinaryOp)
      modifies `code
      ensures code == old(code) + X64DivideTailCode(op)
    {
      ghost var start := code;
      Put([Cqo, Idiv(RCX)]);
      if op.FloorModulo? { Put([Mov(Reg(RAX), Reg(RDX))]); }
      Put([Test(RDX)]);
      var exact := Branch(Jcc(IfEqual, 0));
      Put([XorFlags(RDX, RCX)]);
      var same := Branch(Jcc(IfNotSign, 0));
      if op.FloorModulo? { Put([AddFlags(Reg(RAX), Reg(RAX), Reg(RCX))]); } else { Put([Decrement(RAX)]); }
      Patch(exact, |code|);
      Patch(same, |code|);
    }

    method X64Divide(op: BinaryOp, result: Operand, divisor: Operand)
      requires target.X64?
      modifies `code
      ensures code == old(code) + (X64DivideCode(op, result, divisor) + Move(X64, result, Reg(RAX)))
    {
      hide X64DivideHeadCode, X64DivideTailCode, X64DivideCode, Move;
      ghost var start := code;
      var general, done := X64DivideHead(op, result, divisor);
      Patch(general, |code|);
      X64DivideTail(op);
      Patch(done, |code|);
      X64DivideAssembles(start, op, result, divisor);
      EmitMove(result, Reg(RAX));
    }

    /** The guards of AArch64 division, which keep `sdiv` from answering zero or wrapping. */
    method A64DivideHead(op: BinaryOp, result: Operand, divisor: Operand) returns (general: nat, done: nat)
      modifies `code
      ensures general == |old(code)| + 4 && done == |code| - 1
      ensures code == old(code) + A64DivideHeadCode(op, result, divisor)
    {
      Put([Mov(Reg(0), result), Mov(Reg(1), divisor), TrapIfZero(1, DivideZero(op)), CmpMinusOne(1)]);
      general := Branch(Jcc(IfNotEqual, 0));
      if op.FloorModulo? {
        Put([Zero(0)]);
      } else {
        Put([NegFlags(Reg(0), Reg(0)), TrapIf(IfOverflow, FloorDivideOverflow)]);
      }
      done := Branch(Jmp(0));
    }

    method A64DivideTail(op: BinaryOp)
      modifies `code
      ensures code == old(code) + A64DivideTailCode(op)
    {
      Put([Sdiv(9, 0, 1)]);
      var remainder := if op.FloorModulo? then 0 else 10;
      Put([Msub(remainder, 9, 1, 0)]);
      if !op.FloorModulo? { Put([Mov(Reg(0), Reg(9))]); }
      var exact := Branch(Cbz(remainder, 0));
      Put([Eor(11, remainder, 1)]);
      var same := Branch(TbzSign(11, 0));
      if op.FloorModulo? { Put([AddPlain(0, 0, 1)]); } else { Put([Decrement(0)]); }
      Patch(exact, |code|);
      Patch(same, |code|);
    }

    method A64Divide(op: BinaryOp, result: Operand, divisor: Operand)
      requires target.A64?
      modifies `code
      ensures code == old(code) + (A64DivideCode(op, result, divisor) + Move(A64, result, Reg(0)))
    {
      hide A64DivideHeadCode, A64DivideTailCode, A64DivideCode, Move;
      ghost var start := code;
      var general, done := A64DivideHead(op, result, divisor);
      Patch(general, |code|);
      A64DivideTail(op);
      Patch(done, |code|);
      A64DivideAssembles(start, op, result, divisor);
      EmitMove(result, Reg(0));
    }

    /** Leaves left minus right in the flags. */
    method Compare(left: Operand, right: Operand)
      modifies `code
      ensures code == old(code) + CompareCode(target, left, right)
    {
      if target.X64? {
        if left.Reg? || right.Reg? { Put([Cmp(left, right)]); return; }
        Put([Mov(Reg(RAX), right)]);
        Put([Cmp(left, Reg(RAX))]);
      } else {
        var a := LoadOperand(left, 0);
        var b := LoadOperand(right, 1);
        Put([Cmp(Reg(a), Reg(b))]);
      }
    }

    /** AArch64 reads operands from registers; a spilled one is loaded first. */
    method LoadOperand(o: Operand, scratch: nat) returns (reg: nat)
      modifies `code
      ensures reg == A64Register(o, scratch) && code == old(code) + A64Load(o, scratch)
    {
      if o.Reg? { return o.reg; }
      Put([Mov(Reg(scratch), o)]);
      reg := scratch;
    }

    method StoreResult(reg: nat, result: Operand)
      modifies `code
      ensures code == old(code) + A64Store(reg, result)
    {
      if !result.Reg? { Put([Mov(result, Reg(reg))]); }
    }

    method X64AddOrSubtract(add: bool, result: Operand, right: Operand)
      requires target.X64?
      modifies `code
      ensures code == old(code) + X64BinaryCode(if add then Add else Subtract, result, right)
    {
      var operand := right;
      if !result.Reg? && !right.Reg? {
        Put([Mov(Reg(RAX), right)]);
        operand := Reg(RAX);
      }
      Put(if add then [AddFlags(result, result, operand)] else [SubFlags(result, result, operand)]);
      Put([TrapIf(IfOverflow, if add then AddOverflow else SubtractOverflow)]);
    }

    method X64Multiply(result: Operand, right: Operand)
      requires target.X64?
      modifies `code
      ensures code == old(code) + X64BinaryCode(Multiply, result, right)
    {
      if result.Reg? {
        Put([Imul(result.reg, right)]);
        Put([TrapIf(IfOverflow, MultiplyOverflow)]);
        return;
      }
      Put([Mov(Reg(RAX), result)]);
      Put([Imul(RAX, right)]);
      Put([TrapIf(IfOverflow, MultiplyOverflow)]);
      Put([Mov(result, Reg(RAX))]);
    }

    method X64Binary(op: BinaryOp, result: Operand, right: Operand)
      requires target.X64?
      modifies `code
      ensures code == old(code) + X64BinaryCode(op, result, right)
    {
      hide X64DivideCode, CompareCode, Move;
      match op
      case Add => X64AddOrSubtract(true, result, right);
      case Subtract => X64AddOrSubtract(false, result, right);
      case Multiply => X64Multiply(result, right);
      case FloorDivide => X64Divide(op, result, right);
      case FloorModulo => X64Divide(op, result, right);
      case _ =>
        Compare(result, right);
        Put([SetBool(RAX, CondOf(op)), Mov(result, Reg(RAX))]);
    }

    method A64Binary(op: BinaryOp, result: Operand, right: Operand)
      requires target.A64?
      modifies `code
      ensures code == old(code) + A64BinaryCode(op, result, right)
    {
      hide A64DivideCode, Move, A64Load, A64Store;
      if op.FloorDivide? || op.FloorModulo? { A64Divide(op, result, right); return; }
      var left := LoadOperand(result, 0);
      var operand := LoadOperand(right, 1);
      var into := if result.Reg? then result.reg else 0;
      A64Operate(op, into, left, operand);
      StoreResult(into, result);
    }

    method A64Operate(op: BinaryOp, into: nat, left: nat, right: nat)
      modifies `code
      ensures code == old(code) + A64Compute(op, into, left, right)
    {
      match op
      case Add =>
        Put([AddFlags(Reg(into), Reg(left), Reg(right)), TrapIf(IfOverflow, AddOverflow)]);
      case Subtract =>
        Put([SubFlags(Reg(into), Reg(left), Reg(right)), TrapIf(IfOverflow, SubtractOverflow)]);
      case Multiply =>
        Put([MulLow(9, left, right), MulHigh(10, left, right), SignOf(11, 9), Cmp(Reg(10), Reg(11))]);
        Put([TrapIf(IfNotEqual, MultiplyOverflow), Mov(Reg(into), Reg(9))]);
      case _ =>
        Put([Cmp(Reg(left), Reg(right)), SetBool(into, CondOf(op))]);
    }

    method EmitBinary(op: BinaryOp, result: Operand, right: Operand)
      modifies `code
      ensures code == old(code) + BinaryCode(target, op, result, right)
    {
      if target.X64? { X64Binary(op, result, right); } else { A64Binary(op, result, right); }
    }

    method EmitLiteral(result: Operand, value: Int64)
      modifies `code
      ensures code == old(code) + LiteralCode(result, value)
    {
      var reg := if result.Reg? then result.reg else 0;
      Put([Imm(reg, value)]);
      if !result.Reg? { Put([Mov(result, Reg(0))]); }
    }

    method EmitText(result: Operand, text: string)
      modifies `code
      ensures code == old(code) + TextLiteralCode(result, text)
    {
      var reg := if result.Reg? then result.reg else 0;
      Put([TextAddress(reg, text)]);
      if !result.Reg? { Put([Mov(result, Reg(0))]); }
    }

    method EmitNegate(result: Operand)
      modifies `code
      ensures code == old(code) + NegateCode(target, result)
    {
      if target.X64? {
        Put([NegFlags(result, result), TrapIf(IfOverflow, NegateOverflow)]);
        return;
      }
      var reg := LoadOperand(result, 0);
      Put([NegFlags(Reg(reg), Reg(reg)), TrapIf(IfOverflow, NegateOverflow)]);
      StoreResult(reg, result);
    }

    /** Fills the boundary of a call: written argument w goes to the register of its declaration slot. */
    method FillBoundary(l: Layout, order: seq<nat>, d: nat)
      modifies this
      ensures code == old(code) + MoveAll(target, BoundaryMoves(target, l, order, d))
      ensures refused == (old(refused) || (|order| > 0 && d + |order| > l.evalDepth))
    {
      hide Move, MoveAll;
      ghost var moves := BoundaryMoves(target, l, order, d);
      var w := 0;
      assert moves[w..] == moves;
      while w < |order|
        invariant 0 <= w <= |order| && refused == (old(refused) || (w > 0 && d + w > l.evalDepth))
        invariant code + MoveAll(target, moves[w..]) == old(code) + MoveAll(target, moves)
      {
        FirstMove(target, moves, w);
        var from := Locate(l, d + w);
        EmitMove(Reg(ArgumentRegister(target, order[w])), from);
        w := w + 1;
      }
      NoMoves(target);
      assert moves[w..] == [];
    }

    /** One past the deepest depth moved when the first `index` places have had their turn. */
    static function LastAsked(d: nat, index: nat): nat {
      if index == 0 then 0 else if index == SYSCALL_ALLOCATABLE_INDEX + 1 then d + index - 1 else d + index
    }

    /** Fills the boundary of a system call, skipping r10 the first time round and filling it last. */
    method FillSyscall(l: Layout, count: nat, d: nat)
      requires 0 < count <= MAX_SYSCALL_ARGUMENTS
      modifies this
      ensures code == old(code) + MoveAll(target, SyscallMoves(l, count, d))
      ensures refused == (old(refused) || d + count > l.evalDepth)
    {
      hide Move, SyscallMoves, EvalOperand;
      ghost var moves := SyscallMoves(l, count, d);
      SyscallMoveAt(l, count, d, 0);
      ghost var k := 0;
      var index := 0;
      while index < count
        invariant 0 <= index <= count
        invariant k == if index <= SYSCALL_ALLOCATABLE_INDEX then index else index - 1
        invariant refused == (old(refused) || LastAsked(d, index) > l.evalDepth)
        invariant code + MoveAll(target, moves[k..]) == old(code) + MoveAll(target, moves)
      {
        if index != SYSCALL_ALLOCATABLE_INDEX {
          assert moves[k..][1..] == moves[k + 1..];
          SyscallMoveAt(l, count, d, index);
          var from := Locate(l, d + index);
          EmitMove(Reg(X64_SYSCALL[index]), from);
          k := k + 1;
        }
        index := index + 1;
      }
      if count > SYSCALL_ALLOCATABLE_INDEX {
        assert moves[k..] == [moves[k]];
        SyscallMoveAt(l, count, d, SYSCALL_ALLOCATABLE_INDEX);
        LastMove(target, moves[k]);
        var last := Locate(l, d + SYSCALL_ALLOCATABLE_INDEX);
        EmitMove(Reg(X64_SYSCALL[SYSCALL_ALLOCATABLE_INDEX]), last);
      }
    }

    /** Evaluates an expression into the location of depth d. */
    method Expression(l: Layout, e: Expr, d: nat)
      requires Complete(e)
      modifies this
      ensures code == old(code) + ExprCode(target, l, e, d)
      ensures refused == (old(refused) || d + Need(e) > l.evalDepth)
      decreases e, 2
    {
      hide Move, BinaryCode, NegateCode, LiteralCode, TextLiteralCode, EvalOperand, ArgumentsCode, MoveAll;
      var result := Locate(l, d);
      match e
      case Literal(value) => EmitLiteral(result, value);
      case TextLiteral(text) => EmitText(result, text);
      case Parameter(slot) => EmitMove(result, ValueOperand(l, slot));
      case Call(_, _, _) => CallExpression(l, e, d);
      case Syscall(_) => SyscallExpression(l, e, d);
      case Negate(left) =>
        Expression(l, left, d);
        EmitNegate(result);
      case Concat(_, _) => ConcatExpression(l, e, d);
      case Binary(_, _, _) => BinaryExpression(l, e, d);
    }

    method BinaryExpression(l: Layout, e: Expr, d: nat)
      requires e.Binary? && Complete(e)
      modifies this
      ensures code == old(code) + ExprCode(target, l, e, d)
      ensures refused == (old(refused) || d + Need(e) > l.evalDepth)
      decreases e, 1
    {
      hide BinaryCode, EvalOperand;
      var result := Locate(l, d);
      Expression(l, e.left, d);
      Expression(l, e.right, d + 1);
      var operand := Locate(l, d + 1);
      EmitBinary(e.op, result, operand);
      Threefold(old(code), ExprCode(target, l, e.left, d), ExprCode(target, l, e.right, d + 1), BinaryCode(target, e.op, result, operand));
    }

    method CallExpression(l: Layout, e: Expr, d: nat)
      requires e.Call? && Complete(e)
      modifies this
      ensures code == old(code) + ExprCode(target, l, e, d)
      ensures refused == (old(refused) || d + Need(e) > l.evalDepth)
      decreases e, 1
    {
      hide Move, EvalOperand, ArgumentsCode, MoveAll, BoundaryMoves;
      EvaluateArguments(l, e, d);
      FillBoundary(l, e.order, d);
      if e.order != [] { ArgumentsNeed(e, 0); }
      Put([CallFunction(e.function_)]);
      var result := Locate(l, d);
      EmitMove(result, Reg(0));
      Nested(old(code), [], ArgumentsCode(target, l, e, 0, d), MoveAll(target, BoundaryMoves(target, l, e.order, d)),
        [CallFunction(e.function_)], Move(target, EvalOperand(l, d), Reg(0)));
    }

    method SyscallExpression(l: Layout, e: Expr, d: nat)
      requires e.Syscall? && Complete(e)
      modifies this
      ensures code == old(code) + ExprCode(target, l, e, d)
      ensures refused == (old(refused) || d + Need(e) > l.evalDepth)
      decreases e, 1
    {
      hide Move, EvalOperand, ArgumentsCode, MoveAll, SyscallMoves;
      EvaluateArguments(l, e, d);
      FillSyscall(l, |e.arguments|, d);
      ArgumentsNeed(e, 0);
      Put([KernelCall(|e.arguments|)]);
      var result := Locate(l, d);
      EmitMove(result, Reg(0));
      Nested(old(code), [], ArgumentsCode(target, l, e, 0, d), MoveAll(target, SyscallMoves(l, |e.arguments|, d)),
        [KernelCall(|e.arguments|)], Move(target, EvalOperand(l, d), Reg(0)));
    }

    method ConcatExpression(l: Layout, e: Expr, d: nat)
      requires e.Concat? && Complete(e)
      modifies this
      ensures code == old(code) + ExprCode(target, l, e, d)
      ensures refused == (old(refused) || d + Need(e) > l.evalDepth)
      decreases e, 1
    {
      hide Move, EvalOperand, MoveAll;
      Expression(l, e.left, d);
      Expression(l, e.right, d + 1);
      var left := Locate(l, d);
      var right := Locate(l, d + 1);
      EmitMoves([(Reg(ArgumentRegister(target, 0)), left), (Reg(ArgumentRegister(target, 1)), right)]);
      Put([CallConcat]);
      var result := Locate(l, d);
      EmitMove(result, Reg(0));
      Nested(old(code), ExprCode(target, l, e.left, d), ExprCode(target, l, e.right, d + 1),
        MoveAll(target, ConcatMoves(target, l, d)), [CallConcat], Move(target, EvalOperand(l, d), Reg(0)));
    }

    /** Evaluates the arguments of a call in written order, each one depth further out. */
    method EvaluateArguments(l: Layout, e: Expr, d: nat)
      requires Complete(e)
      modifies this
      ensures code == old(code) + ArgumentsCode(target, l, e, 0, d)
      ensures forall es :: Lists(e, es) ==> code == old(code) + EachCode(target, l, es, d)
      ensures refused == (old(refused) || (WrittenCount(e) > 0 && d + NeedFrom(e, 0) > l.evalDepth))
      decreases e, 0
    {
      hide ExprCode, Complete;
      var w := 0;
      while w < WrittenCount(e)
        invariant 0 <= w <= WrittenCount(e)
        invariant (refused || (w < WrittenCount(e) && d + NeedFrom(e, w) > l.evalDepth))
          == (old(refused) || (WrittenCount(e) > 0 && d + NeedFrom(e, 0) > l.evalDepth))
        invariant code + ArgumentsCode(target, l, e, w, d) == old(code) + ArgumentsCode(target, l, e, 0, d)
      {
        WrittenComplete(e, w);
        Expression(l, Written(e, w), d + w);
        w := w + 1;
      }
      forall es | Lists(e, es) ensures ArgumentsCode(target, l, e, 0, d) == EachCode(target, l, es, d) {
        EachIsArguments(target, l, e, es, 0, d);
        assert es[0..] == es;
      }
    }

    /** Moves written argument w of a self call to the parameter of its declaration slot. */
    method FillParameters(l: Layout, order: seq<nat>)
      modifies this
      ensures code == old(code) + MoveAll(target, SelfMoves(l, order))
      ensures refused == (old(refused) || |order| > l.evalDepth)
    {
      hide Move, MoveAll;
      ghost var moves := SelfMoves(l, order);
      var w := 0;
      assert moves[w..] == moves;
      while w < |order|
        invariant 0 <= w <= |order| && refused == (old(refused) || w > l.evalDepth)
        invariant code + MoveAll(target, moves[w..]) == old(code) + MoveAll(target, moves)
      {
        FirstMove(target, moves, w);
        var from := Locate(l, w);
        EmitMove(ValueOperand(l, order[w]), from);
        w := w + 1;
      }
      NoMoves(target);
      assert moves[w..] == [];
    }

    /** The code of a returned call, self or mutual. */
    method TailCall(l: Layout, self: nat, call: Expr, bodyStart: nat)
      requires call.Call? && Complete(call) && bodyStart <= |code|
      modifies this
      ensures code == old(code) + TailCode(target, l, self, call, |old(code)| - bodyStart)
      ensures refused == (old(refused) || NeedFrom(call, 0) > l.evalDepth)
    {
      hide ArgumentsCode, MoveAll, TeardownCode;
      EvaluateArguments(l, call, 0);
      if call.order != [] { ArgumentsNeed(call, 0); }
      if call.function_ == self {
        FillParameters(l, call.order);
        var back := Branch(Jmp(0));
        Patch(back, bodyStart);
      } else {
        FillBoundary(l, call.order, 0);
        Teardown(l);
        Put([TailJump(call.function_)]);
      }
    }

    /** Reloads every saved register, last saved first, and drops the frame. */
    method Teardown(l: Layout)
      modifies `code
      ensures code == old(code) + TeardownCode(target, l)
    {
      hide Move, MoveAll, RestoreMoves;
      RestoreSaved(l);
      Put([DropFrame, PopFrame]);
    }

    method RestoreSaved(l: Layout)
      modifies `code
      ensures code == old(code) + MoveAll(target, RestoreMoves(l))
    {
      hide Move, MoveAll;
      ghost var moves := RestoreMoves(l);
      var index := |l.saved|;
      assert moves[|moves| - index..] == moves;
      while index > 0
        invariant 0 <= index <= |l.saved|
        invariant code + MoveAll(target, moves[|moves| - index..]) == old(code) + MoveAll(target, moves)
      {
        FirstMove(target, moves, |moves| - index);
        EmitMove(Reg(l.saved[index - 1]), SavedOperand(l, index - 1));
        index := index - 1;
      }
      NoMoves(target);
      assert moves[|moves| - index..] == [];
    }

    /** Evaluates a condition into the flags, or into a register for a compare-and-branch. */
    method Guard(l: Layout, condition: Expr)
      requires Complete(condition)
      modifies this
      ensures code == old(code) + GuardCode(target, l, condition)
      ensures refused == (old(refused) || Need(condition) > l.evalDepth)
    {
      hide ExprCode, CompareCode, EvalOperand;
      if condition.Binary? && IsComparison(condition.op) {
        Expression(l, condition.left, 0);
        Expression(l, condition.right, 1);
        var left := Locate(l, 0);
        var right := Locate(l, 1);
        Compare(left, right);
        return;
      }
      Expression(l, condition, 0);
      var o := Locate(l, 0);
      if target.A64? {
        var reg := LoadOperand(o, 0);
      } else if o.Reg? {
        Put([Test(o.reg)]);
      } else {
        Put([Mov(Reg(RAX), o)]);
        Put([Test(RAX)]);
      }
    }

    /** The recorded returns are unaimed branches inside the body. */
    ghost predicate Pending(exits: seq<nat>, bodyStart: nat)
      reads this
    {
      && bodyStart <= |code|
      && forall r :: r in exits ==> bodyStart <= r < |code| && code[r] == Jmp(0)
    }

    /** Returns a value: a tail call, or a result in register 0 and, unless it closes the body, a branch to the epilogue. */
    method ReturnValue(l: Layout, self: nat, value: Expr, bodyStart: nat, closing: bool, exits: seq<nat>)
      returns (exits': seq<nat>)
      requires Complete(value) && Pending(exits, bodyStart)
      modifies this
      ensures old(code) <= code && Pending(exits', bodyStart)
      ensures Records(exits, exits', |old(code)|, |code|)
      ensures forall epilogue: int ::
        Segment(code, bodyStart, |old(code)|, exits', epilogue)
        == ReturnCode(target, l, self, value, |old(code)| - bodyStart, epilogue, closing)
      ensures refused == (old(refused) || ReturnAsks(value) > l.evalDepth)
    {
      hide TailCode, ExprCode, Move, Complete;
      ghost var start := |code|;
      exits' := exits;
      if IsTail(value) {
        TailCall(l, self, value, bodyStart);
      } else {
        Expression(l, value, 0);
        var result := Locate(l, 0);
        EmitMove(Reg(0), result);
        if !closing {
          var at := Branch(Jmp(0));
          exits' := exits + [at];
        }
      }
    }

    /** A guarded return: a branch skips it when the condition is false. */
    method GuardedReturn(l: Layout, self: nat, condition: Expr, value: Expr, bodyStart: nat, exits: seq<nat>)
      returns (exits': seq<nat>)
      requires Complete(condition) && Complete(value) && Pending(exits, bodyStart)
      modifies this
      ensures old(code) <= code && Pending(exits', bodyStart)
      ensures Records(exits, exits', |old(code)|, |code|)
      ensures forall epilogue: int ::
        Segment(code, bodyStart, |old(code)|, exits', epilogue)
        == StmtCode(target, l, self, IfReturn(condition, value), |old(code)| - bodyStart, epilogue, false)
      ensures refused == (old(refused) || StmtAsks(IfReturn(condition, value)) > l.evalDepth)
    {
      hide GuardCode, ReturnCode, Complete, EvalOperand, Segment;
      ghost var start := code;
      Guard(l, condition);
      ghost var guarded := code;
      var skip := Branch(SkipBranch(target, l, condition, 0));
      ghost var before := code;
      exits' := ReturnValue(l, self, value, bodyStart, false, exits);
      ghost var after := code;
      Patch(skip, |code|);
      RecordedWhere(exits, exits', |before|, |after|);
      forall epilogue: int
        ensures Segment(code, bodyStart, |start|, exits', epilogue)
             == StmtCode(target, l, self, IfReturn(condition, value), |start| - bodyStart, epilogue, false)
      {
        GuardAssembles(target, l, self, condition, value, start, after, bodyStart, exits', epilogue);
      }
    }

    /** Emits one statement. */
    method Statement(l: Layout, self: nat, s: Stmt, bodyStart: nat, closing: bool, exits: seq<nat>)
      returns (exits': seq<nat>)
      requires CompleteStmt(s) && Pending(exits, bodyStart)
      modifies this
      ensures old(code) <= code && Pending(exits', bodyStart)
      ensures Records(exits, exits', |old(code)|, |code|)
      ensures forall epilogue: int ::
        Segment(code, bodyStart, |old(code)|, exits', epilogue)
        == StmtCode(target, l, self, s, |old(code)| - bodyStart, epilogue, closing)
      ensures refused == (old(refused) || StmtAsks(s) > l.evalDepth)
    {
      hide ReturnCode, ExprCode, GuardCode, Complete, EvalOperand, Move;
      exits' := exits;
      match s
      case IfReturn(condition, value) =>
        exits' := GuardedReturn(l, self, condition, value, bodyStart, exits);
      case ReturnStmt(value) =>
        exits' := ReturnValue(l, self, value, bodyStart, closing, exits);
      case PrintStmt(value) =>
        Expression(l, value, 0);
        var printed := Locate(l, 0);
        EmitMove(Reg(ArgumentRegister(target, 0)), printed);
        Put([CallPrint]);
      case Let(slot, value) =>
        Expression(l, value, 0);
        var bound := Locate(l, 0);
        EmitMove(ValueOperand(l, slot), bound);
      case Evaluate(value) =>
        Expression(l, value, 0);
    }

    /** What has been emitted and what is still to come make the body, wherever the epilogue will lie. */
    ghost predicate BodySoFar(l: Layout, self: nat, body: seq<Stmt>, i: nat, start: nat, exits: seq<nat>)
      requires start <= |code|
      reads this
    {
      forall epilogue: int ::
        Segment(code, start, start, exits, epilogue) + BodyCode(target, l, self, body, i, |code| - start, epilogue)
        == BodyCode(target, l, self, body, 0, 0, epilogue)
    }

    lemma BodyStarts(l: Layout, self: nat, body: seq<Stmt>)
      ensures BodySoFar(l, self, body, 0, |code|, [])
    {
      hide BodyCode;
      NothingEmitted(code, []);
      forall epilogue: int
        ensures Segment(code, |code|, |code|, [], epilogue) + BodyCode(target, l, self, body, 0, 0, epilogue)
             == BodyCode(target, l, self, body, 0, 0, epilogue)
      {
        assert [] + BodyCode(target, l, self, body, 0, 0, epilogue) == BodyCode(target, l, self, body, 0, 0, epilogue);
      }
    }

    lemma BodyEnds(l: Layout, self: nat, body: seq<Stmt>, start: nat, exits: seq<nat>)
      requires start <= |code| && BodySoFar(l, self, body, |body|, start, exits)
      ensures forall epilogue: int ::
        Segment(code, start, start, exits, epilogue) == BodyCode(target, l, self, body, 0, 0, epilogue)
    {
      hide StmtCode, Segment;
      forall epilogue: int
        ensures Segment(code, start, start, exits, epilogue) == BodyCode(target, l, self, body, 0, 0, epilogue)
      {
        var s := Segment(code, start, start, exits, epilogue);
        assert s + [] == s;
        assert s + BodyCode(target, l, self, body, |body|, |code| - start, epilogue) == BodyCode(target, l, self, body, 0, 0, epilogue);
      }
    }

    /** Emits the next statement of a body. */
    method BodyStatement(l: Layout, self: nat, body: seq<Stmt>, i: nat, start: nat, exits: seq<nat>) returns (exits': seq<nat>)
      requires i < |body| && CompleteStmt(body[i]) && Pending(exits, start) && BodySoFar(l, self, body, i, start, exits)
      modifies this
      ensures old(code) <= code && Pending(exits', start) && BodySoFar(l, self, body, i + 1, start, exits')
      ensures refused == (old(refused) || StmtAsks(body[i]) > l.evalDepth)
    {
      hide StmtCode, CompleteStmt, Segment, BodyCode;
      ghost var before := code;
      exits' := Statement(l, self, body[i], start, i + 1 == |body|, exits);
      forall epilogue: int
        ensures Segment(code, start, start, exits', epilogue) + BodyCode(target, l, self, body, i + 1, |code| - start, epilogue)
             == BodyCode(target, l, self, body, 0, 0, epilogue)
      {
        SegmentGrows(before, code, start, exits, exits', epilogue);
        BodyStep(target, l, self, body, i, |before| - start, epilogue, Segment(code, start, |before|, exits', epilogue));
        assert Segment(before, start, start, exits, epilogue) + BodyCode(target, l, self, body, i, |before| - start, epilogue)
          == BodyCode(target, l, self, body, 0, 0, epilogue);
      }
    }

    /** Emits the statements of a body, and tells whether one of them returns. */
    method Body(l: Layout, self: nat, body: seq<Stmt>) returns (exits: seq<nat>, returned: bool)
      requires forall i :: 0 <= i < |body| ==> CompleteStmt(body[i])
      modifies this
      ensures old(code) <= code && Pending(exits, |old(code)|)
      ensures returned == HasReturn(body)
      ensures forall epilogue: int ::
        Segment(code, |old(code)|, |old(code)|, exits, epilogue) == BodyCode(target, l, self, body, 0, 0, epilogue)
      ensures refused == (old(refused) || BodyAsks(body, 0) > l.evalDepth)
    {
      hide StmtCode, CompleteStmt, Segment, BodyCode, BodySoFar;
      var start := |code|;
      exits, returned := [], false;
      BodyStarts(l, self, body);
      var i := 0;
      while i < |body|
        invariant 0 <= i <= |body| && old(code) <= code && Pending(exits, start) && BodySoFar(l, self, body, i, start, exits)
        invariant returned <==> exists k :: 0 <= k < i && body[k].ReturnStmt?
        invariant (refused || BodyAsks(body, i) > l.evalDepth) == (old(refused) || BodyAsks(body, 0) > l.evalDepth)
      {
        exits := BodyStatement(l, self, body, i, start, exits);
        if body[i].ReturnStmt? { returned := true; }
        i := i + 1;
      }
      BodyEnds(l, self, body, start, exits);
    }

    /** Aims every recorded return at the epilogue, which starts here. */
    method AimReturns(exits: seq<nat>, bodyStart: nat)
      requires Pending(exits, bodyStart)
      modifies `code
      ensures code == old(code)[..bodyStart] + Segment(old(code), bodyStart, bodyStart, exits, |old(code)| - bodyStart)
    {
      var epilogue := |code|;
      var k := 0;
      while k < |exits|
        invariant 0 <= k <= |exits| && |code| == epilogue
        invariant forall i :: 0 <= i < |code| ==>
          code[i] == if i in exits[..k] then Jmp(epilogue - (i + 1)) else old(code)[i]
      {
        assert exits[k] in exits;
        Patch(exits[k], epilogue);
        assert exits[..k + 1] == exits[..k] + [exits[k]];
        k := k + 1;
      }
      assert exits[..k] == exits;
    }

    method FrameOpening(l: Layout, parameters: nat)
      modifies `code
      ensures code == old(code) + PrologueCode(target, l, parameters)
    {
      hide MoveAll;
      Put([PushFrame, SetFrame]);
      if l.TotalSlots() > 0 { Put([ReserveFrame(l.FrameWords())]); }
      EmitMoves(SaveMoves(l));
      EmitMoves(ParameterMoves(target, l, parameters));
    }

    /** Emits one function: its frame, its body, the implicit answer, and the one epilogue every return reaches. */
    method Declaration(l: Layout, self: nat, f: Function)
      requires forall i :: 0 <= i < |f.body| ==> CompleteStmt(f.body[i])
      modifies this
      ensures code == old(code) + FunctionCode(target, l, self, f)
      ensures refused == (old(refused) || BodyAsks(f.body, 0) > l.evalDepth)
    {
      hide PrologueCode, BodyCode, TeardownCode, CompleteStmt, Segment;
      ghost var start := code;
      FrameOpening(l, f.parameters);
      var bodyStart := |code|;
      ghost var framed := code;
      var exits, returned := Body(l, self, f.body);
      ghost var body := code;
      if !returned { Put([Zero(0)]); }
      ghost var unaimed := code;
      AimReturns(exits, bodyStart);
      BodyAssembles(target, l, self, f.body, framed, body, exits);
      Teardown(l);
      Put([Ret]);
      assert code == framed + (BodyCode(target, l, self, f.body, 0, 0, EpilogueAt(target, l, self, f.body))
        + (ImplicitResult(f.body) + EpilogueCode(target, l)));
    }
  }

  // ----- what patching makes of the pieces of a division -----

  function X64DivideHeadCode(op: BinaryOp, result: Operand, divisor: Operand): (r: seq<Instr>)
    ensures |r| > 6
  {
    if op.FloorModulo? then
      [Mov(Reg(RCX), divisor), Mov(Reg(RAX), result), Test(RCX), TrapIf(IfEqual, DivideZero(op)), CmpMinusOne(RCX),
       Jcc(IfNotEqual, 0), Zero(RAX), Jmp(0)]
    else
      [Mov(Reg(RCX), divisor), Mov(Reg(RAX), result), Test(RCX), TrapIf(IfEqual, DivideZero(op)), CmpMinusOne(RCX),
       Jcc(IfNotEqual, 0), NegFlags(Reg(RAX), Reg(RAX)), TrapIf(IfOverflow, FloorDivideOverflow), Jmp(0)]
  }

  function X64DivideTailCode(op: BinaryOp): seq<Instr> {
    if op.FloorModulo? then
      [Cqo, Idiv(RCX), Mov(Reg(RAX), Reg(RDX)), Test(RDX), Jcc(IfEqual, 3), XorFlags(RDX, RCX), Jcc(IfNotSign, 1),
       AddFlags(Reg(RAX), Reg(RAX), Reg(RCX))]
    else
      [Cqo, Idiv(RCX), Test(RDX), Jcc(IfEqual, 3), XorFlags(RDX, RCX), Jcc(IfNotSign, 1), Decrement(RAX)]
  }

  /** A branch aimed from one place of a text to another. */
  function Patched(code: seq<Instr>, at: nat, destination: int): seq<Instr>
    requires at < |code|
  {
    code[at := Aimed(code[at], destination - (at + 1))]
  }

  /** Patching behind a common start patches the rest. */
  lemma PatchedBehind(start: seq<Instr>, code: seq<Instr>, at: nat, destination: int)
    requires at < |code|
    ensures Patched(start + code, |start| + at, |start| + destination) == start + Patched(code, at, destination)
  {
  }

  lemma X64DivideAssembles(start: seq<Instr>, op: BinaryOp, result: Operand, divisor: Operand)
    ensures var head := X64DivideHeadCode(op, result, divisor);
      var n := |start| + |head|;
      var patched := Patched(start + head, |start| + 5, n) + X64DivideTailCode(op);
      Patched(patched, n - 1, |patched|) == start + X64DivideCode(op, result, divisor)
  {
    var head, tail := X64DivideHeadCode(op, result, divisor), X64DivideTailCode(op);
    X64DivideRelative(op, result, divisor);
    hide X64DivideHeadCode, X64DivideTailCode, X64DivideCode, Aimed;
    PatchedBehind(start, head, 5, |head|);
    var inner := Patched(head, 5, |head|) + tail;
    assert Patched(start + head, |start| + 5, |start| + |head|) + tail == start + inner;
    PatchedBehind(start, inner, |head| - 1, |inner|);
  }

  lemma X64DivideRelative(op: BinaryOp, result: Operand, divisor: Operand)
    ensures var head := X64DivideHeadCode(op, result, divisor);
      var inner := Patched(head, 5, |head|) + X64DivideTailCode(op);
      Patched(inner, |head| - 1, |inner|) == X64DivideCode(op, result, divisor)
  {
  }

  /** Which move fills the register of a syscall argument: r10 comes last. */
  lemma SyscallMoveAt(l: Layout, count: nat, d: nat, index: nat)
    requires index < count <= MAX_SYSCALL_ARGUMENTS
    ensures |SyscallMoves(l, count, d)| == count
    ensures var k :=
        if count <= SYSCALL_ALLOCATABLE_INDEX || index < SYSCALL_ALLOCATABLE_INDEX then index
        else if index == SYSCALL_ALLOCATABLE_INDEX then count - 1
        else index - 1;
      SyscallMoves(l, count, d)[k] == (Reg(X64_SYSCALL[index]), EvalOperand(l, d + index))
  {
  }

  lemma FirstMove(t: Target, moves: seq<(Operand, Operand)>, k: nat)
    requires k < |moves|
    ensures MoveAll(t, moves[k..]) == Move(t, moves[k].0, moves[k].1) + MoveAll(t, moves[k + 1..])
  {
    hide Move;
    assert moves[k..][1..] == moves[k + 1..];
  }

  lemma NoMoves(t: Target)
    ensures MoveAll(t, []) == []
  {
  }

  lemma LastMove(t: Target, move: (Operand, Operand))
    ensures MoveAll(t, [move]) == Move(t, move.0, move.1)
  {
    assert [move][1..] == [];
  }

  function A64DivideHeadCode(op: BinaryOp, result: Operand, divisor: Operand): (r: seq<Instr>)
    ensures |r| > 5
  {
    if op.FloorModulo? then
      [Mov(Reg(0), result), Mov(Reg(1), divisor), TrapIfZero(1, DivideZero(op)), CmpMinusOne(1), Jcc(IfNotEqual, 0), Zero(0), Jmp(0)]
    else
      [Mov(Reg(0), result), Mov(Reg(1), divisor), TrapIfZero(1, DivideZero(op)), CmpMinusOne(1), Jcc(IfNotEqual, 0),
       NegFlags(Reg(0), Reg(0)), TrapIf(IfOverflow, FloorDivideOverflow), Jmp(0)]
  }

  function A64DivideTailCode(op: BinaryOp): seq<Instr> {
    if op.FloorModulo? then
      [Sdiv(9, 0, 1), Msub(0, 9, 1, 0), Cbz(0, 3), Eor(11, 0, 1), TbzSign(11, 1), AddPlain(0, 0, 1)]
    else
      [Sdiv(9, 0, 1), Msub(10, 9, 1, 0), Mov(Reg(0), Reg(9)), Cbz(10, 3), Eor(11, 10, 1), TbzSign(11, 1), Decrement(0)]
  }

  lemma A64DivideAssembles(start: seq<Instr>, op: BinaryOp, result: Operand, divisor: Operand)
    ensures var head := A64DivideHeadCode(op, result, divisor);
      var n := |start| + |head|;
      var patched := Patched(start + head, |start| + 4, n) + A64DivideTailCode(op);
      Patched(patched, n - 1, |patched|) == start + A64DivideCode(op, result, divisor)
  {
    var head, tail := A64DivideHeadCode(op, result, divisor), A64DivideTailCode(op);
    A64DivideRelative(op, result, divisor);
    hide A64DivideHeadCode, A64DivideTailCode, A64DivideCode, Aimed;
    PatchedBehind(start, head, 4, |head|);
    var inner := Patched(head, 4, |head|) + tail;
    assert Patched(start + head, |start| + 4, |start| + |head|) + tail == start + inner;
    PatchedBehind(start, inner, |head| - 1, |inner|);
  }

  lemma A64DivideRelative(op: BinaryOp, result: Operand, divisor: Operand)
    ensures var head := A64DivideHeadCode(op, result, divisor);
      var inner := Patched(head, 4, |head|) + A64DivideTailCode(op);
      Patched(inner, |head| - 1, |inner|) == A64DivideCode(op, result, divisor)
  {
  }

  // ----- returns, aimed when the epilogue is known -----

  /** What the text from a place on becomes when its recorded returns are aimed at the epilogue. */
  function Segment(code: seq<Instr>, bodyStart: nat, from: nat, exits: seq<nat>, epilogue: int): seq<Instr>
    requires from <= |code|
  {
    seq(|code| - from, k requires 0 <= k < |code| - from =>
      if from + k in exits then Jmp(epilogue - (from + k - bodyStart + 1)) else code[from + k])
  }

  /** Only places emitted since are new among the returns. */
  predicate Records(exits: seq<nat>, exits': seq<nat>, from: nat, end: nat) {
    exits <= exits' && forall k :: |exits| <= k < |exits'| ==> from <= exits'[k] < end
  }

  predicate CompleteStmt(s: Stmt) {
    Complete(s.value) && (s.IfReturn? ==> Complete(s.condition))
  }

  /** A guard, the branch over the guarded return and the return itself, once the branch is aimed past it. */
  lemma GuardAssembles(
      t: Target, l: Layout, self: nat, condition: Expr, value: Expr,
      start: seq<Instr>, after: seq<Instr>, bodyStart: nat, exits: seq<nat>, epilogue: int)
    requires bodyStart <= |start|
    requires var skip := |start| + |GuardCode(t, l, condition)|;
      && start + GuardCode(t, l, condition) + [SkipBranch(t, l, condition, 0)] <= after
      && (forall r :: r in exits ==> r < |start| || r > skip)
      && Segment(after, bodyStart, skip + 1, exits, epilogue)
         == ReturnCode(t, l, self, value, skip + 1 - bodyStart, epilogue, false)
    ensures var skip := |start| + |GuardCode(t, l, condition)|;
      Segment(Patched(after, skip, |after|), bodyStart, |start|, exits, epilogue)
      == StmtCode(t, l, self, IfReturn(condition, value), |start| - bodyStart, epilogue, false)
  {
    hide GuardCode, ReturnCode, EvalOperand;
    var guard := GuardCode(t, l, condition);
    var skip := |start| + |guard|;
    var done := Patched(after, skip, |after|);
    var all := Segment(done, bodyStart, |start|, exits, epilogue);
    var guarded := ReturnCode(t, l, self, value, skip + 1 - bodyStart, epilogue, false);
    assert |guarded| == |after| - (skip + 1);
    assert all[..|guard|] == guard;
    assert all[|guard|] == SkipBranch(t, l, condition, |guarded|);
    assert all[|guard| + 1..] == guarded;
    assert all == guard + ([SkipBranch(t, l, condition, |guarded|)] + guarded);
  }

  lemma RecordedWhere(exits: seq<nat>, exits': seq<nat>, from: nat, end: nat)
    requires Records(exits, exits', from, end)
    ensures forall r :: r in exits' ==> r in exits || from <= r < end
  {
    forall r | r in exits' ensures r in exits || from <= r < end {
      var k :| 0 <= k < |exits'| && exits'[k] == r;
      if k < |exits| { assert exits[k] == r; }
    }
  }

  lemma NothingEmitted(code: seq<Instr>, exits: seq<nat>)
    ensures forall epilogue: int :: Segment(code, |code|, |code|, exits, epilogue) == []
  {
  }

  /** A body's text is what it was, followed by the new statement's. */
  lemma SegmentGrows(before: seq<Instr>, after: seq<Instr>, bodyStart: nat, exits: seq<nat>, exits': seq<nat>, epilogue: int)
    requires bodyStart <= |before| && before <= after && Records(exits, exits', |before|, |after|)
    ensures Segment(after, bodyStart, bodyStart, exits', epilogue)
         == Segment(before, bodyStart, bodyStart, exits, epilogue) + Segment(after, bodyStart, |before|, exits', epilogue)
    ensures |Segment(after, bodyStart, |before|, exits', epilogue)| == |after| - |before|
  {
    RecordedWhere(exits, exits', |before|, |after|);
    assert forall r :: r in exits ==> r in exits' by {
      forall r | r in exits ensures r in exits' {
        var k :| 0 <= k < |exits| && exits[k] == r;
        assert exits'[k] == r;
      }
    }
  }

  lemma BodyStep(t: Target, l: Layout, self: nat, body: seq<Stmt>, i: nat, at: nat, epilogue: int, emitted: seq<Instr>)
    requires i < |body| && emitted == StmtCode(t, l, self, body[i], at, epilogue, i + 1 == |body|)
    ensures BodyCode(t, l, self, body, i, at, epilogue)
         == emitted + BodyCode(t, l, self, body, i + 1, at + |emitted|, epilogue)
  {
    hide StmtCode;
  }

  /** A body followed by its implicit answer, with the returns aimed at what comes next. */
  lemma BodyAssembles(t: Target, l: Layout, self: nat, body: seq<Stmt>, framed: seq<Instr>, emitted: seq<Instr>, exits: seq<nat>)
    requires framed <= emitted && forall r :: r in exits ==> |framed| <= r < |emitted|
    requires forall epilogue: int ::
      Segment(emitted, |framed|, |framed|, exits, epilogue) == BodyCode(t, l, self, body, 0, 0, epilogue)
    ensures var whole := emitted + ImplicitResult(body);
      var e := EpilogueAt(t, l, self, body);
      && |whole| - |framed| == e
      && whole[..|framed|] + Segment(whole, |framed|, |framed|, exits, |whole| - |framed|)
         == framed + (BodyCode(t, l, self, body, 0, 0, e) + ImplicitResult(body))
  {
    hide BodyCode;
    var whole := emitted + ImplicitResult(body);
    assert |Segment(emitted, |framed|, |framed|, exits, 0)| == |emitted| - |framed|;
    var e := EpilogueAt(t, l, self, body);
    assert Segment(whole, |framed|, |framed|, exits, e) == Segment(emitted, |framed|, |framed|, exits, e) + ImplicitResult(body);
  }

  /** Text appended piece by piece is the nested concatenation of the pieces. */
  lemma Threefold(s: seq<Instr>, a: seq<Instr>, b: seq<Instr>, c: seq<Instr>)
    ensures s + a + b + c == s + (a + (b + c))
  {
    assert s + a + b + c == s + a + (b + c);
  }

  lemma Nested(s: seq<Instr>, a: seq<Instr>, b: seq<Instr>, c: seq<Instr>, d: seq<Instr>, e: seq<Instr>)
    ensures s + a + b + c + d + e == s + (a + (b + (c + (d + e))))
    ensures a == [] ==> s + b + c + d + e == s + (b + (c + (d + e)))
  {
    assert s + a + b + c + d + e == s + a + b + c + (d + e);
    assert s + a + b + c + (d + e) == s + a + b + (c + (d + e));
    assert s + a + b + (c + (d + e)) == s + a + (b + (c + (d + e)));
    if a == [] { assert s + a == s && a + (b + (c + (d + e))) == b + (c + (d + e)); }
  }
}
