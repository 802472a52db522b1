/** The gate before compilation against the code it guards: the kernel is called exactly where a system call is compiled. */
module SyscallUse {
  import opened Words
  import opened Core
  import opened Permutations
  import opened Targets
  import opened Machine
  import opened Lowering
  import opened Meaning
  import opened Preservation
  import Compilation

  predicate AsksKernel(code: seq<Instr>) {
    exists i :: 0 <= i < |code| && code[i].KernelCall?
  }

  lemma AsksInEither(a: seq<Instr>, b: seq<Instr>)
    ensures AsksKernel(a + b) <==> AsksKernel(a) || AsksKernel(b)
  {
    forall i | 0 <= i < |a| ensures (a + b)[i] == a[i] {}
    forall i | 0 <= i < |b| ensures (a + b)[|a| + i] == b[i] {}
    if AsksKernel(a) {
      var i :| 0 <= i < |a| && a[i].KernelCall?;
      assert (a + b)[i].KernelCall?;
    }
    if AsksKernel(b) {
      var i :| 0 <= i < |b| && b[i].KernelCall?;
      assert (a + b)[|a| + i].KernelCall?;
    }
  }

  lemma {:induction false} MovesAskNothing(t: Target, moves: seq<(Operand, Operand)>)
    ensures !AsksKernel(MoveAll(t, moves))
    decreases |moves|
  {
    hide AsksKernel, Move;
    NothingAsks();
    if moves != [] {
      MoveAsksNothing(t, moves[0].0, moves[0].1);
      MovesAskNothing(t, moves[1..]);
      AsksInEither(Move(t, moves[0].0, moves[0].1), MoveAll(t, moves[1..]));
    }
  }

  lemma NothingAsks()
    ensures !AsksKernel([])
  {}

  lemma MoveAsksNothing(t: Target, into: Operand, from: Operand)
    ensures !AsksKernel(Move(t, into, from))
  {}

  lemma AtomAsksNothing(result: Operand, n: Int64, text: string)
    ensures !AsksKernel(LiteralCode(result, n)) && !AsksKernel(TextLiteralCode(result, text))
  {}

  lemma NegateAsksNothing(t: Target, result: Operand)
    ensures !AsksKernel(NegateCode(t, result))
  {}

  lemma BinaryAsksNothing(t: Target, op: BinaryOp, result: Operand, right: Operand)
    ensures !AsksKernel(BinaryCode(t, op, result, right))
  {
    if t.X64? { X64AsksNothing(op, result, right); } else { A64AsksNothing(op, result, right); }
  }

  lemma X64AsksNothing(op: BinaryOp, result: Operand, right: Operand)
    ensures !AsksKernel(X64BinaryCode(op, result, right))
  {
    if op.FloorDivide? || op.FloorModulo? {
      hide Move;
      MoveAsksNothing(X64, result, Reg(RAX));
      AsksInEither(X64DivideCode(op, result, right), Move(X64, result, Reg(RAX)));
    }
  }

  lemma A64DivideAsksNothing(op: BinaryOp, result: Operand, right: Operand)
    ensures !AsksKernel(A64DivideCode(op, result, right))
  {}

  lemma A64ComputeAsksNothing(op: BinaryOp, into: nat, left: nat, right: nat)
    ensures !AsksKernel(A64Compute(op, into, left, right))
  {}

  lemma A64OperandsAskNothing(o: Operand, scratch: nat)
    ensures !AsksKernel(A64Load(o, scratch)) && !AsksKernel(A64Store(scratch, o))
  {}

  lemma A64AsksNothing(op: BinaryOp, result: Operand, right: Operand)
    ensures !AsksKernel(A64BinaryCode(op, result, right))
  {
    hide Move, A64DivideCode, A64Compute, A64Load, A64Store, AsksKernel;
    if op.FloorDivide? || op.FloorModulo? {
      A64DivideAsksNothing(op, result, right);
      MoveAsksNothing(A64, result, Reg(0));
      AsksInEither(A64DivideCode(op, result, right), Move(A64, result, Reg(0)));
    } else {
      var into, operand := A64Register(result, 0), A64Register(right, 1);
      var loads := A64Load(result, 0) + A64Load(right, 1);
      A64OperandsAskNothing(result, 0);
      A64OperandsAskNothing(right, 1);
      A64OperandsAskNothing(result, into);
      A64ComputeAsksNothing(op, into, into, operand);
      AsksInEither(A64Load(result, 0), A64Load(right, 1));
      AsksInEither(loads, A64Compute(op, into, into, operand));
      AsksInEither(loads + A64Compute(op, into, into, operand), A64Store(into, result));
    }
  }

  // ----- expressions -----

  lemma {:induction false} ExprAsks(functions: seq<Function>, slots: nat, t: Target, l: Layout, e: Expr, d: nat)
    requires WellFormedExpr(functions, slots, e)
    ensures AsksKernel(ExprCode(t, l, e, d)) <==> !SyscallFree(e)
    decreases e, 1, 0
  {
    hide AsksKernel, Move, MoveAll, LiteralCode, TextLiteralCode, NegateCode, BinaryCode, EvalOperand, BoundaryMoves, SyscallMoves, ConcatMoves,
         ArgumentsCode;
    var result := EvalOperand(l, d);
    match e
    case Literal(n) => AtomAsksNothing(result, n, "");
    case TextLiteral(text) => AtomAsksNothing(result, 0, text);
    case Parameter(slot) => MoveAsksNothing(t, result, ValueOperand(l, slot));
    case Call(f, arguments, order) =>
      var es := InOrder(arguments, order);
      EachAsks(functions, slots, t, l, e, es, 0, d);
      ArgumentsFree(e, arguments, order, es);
      var tail := [CallFunction(f)] + Move(t, result, Reg(0));
      EndsQuietly(t, [CallFunction(f)], result);
      MovesAskNothing(t, BoundaryMoves(t, l, order, d));
      AsksInEither(MoveAll(t, BoundaryMoves(t, l, order, d)), tail);
      AsksInEither(ArgumentsCode(t, l, e, 0, d), MoveAll(t, BoundaryMoves(t, l, order, d)) + tail);
    case Syscall(arguments) => SyscallAsksKernel(t, l, e, d);
    case Negate(left) =>
      ExprAsks(functions, slots, t, l, left, d);
      NegateAsksNothing(t, result);
      AsksInEither(ExprCode(t, l, left, d), NegateCode(t, result));
    case Concat(left, right) =>
      ExprAsks(functions, slots, t, l, left, d);
      ExprAsks(functions, slots, t, l, right, d + 1);
      var tail := [CallConcat] + Move(t, result, Reg(0));
      EndsQuietly(t, [CallConcat], result);
      MovesAskNothing(t, ConcatMoves(t, l, d));
      AsksInEither(MoveAll(t, ConcatMoves(t, l, d)), tail);
      AsksInEither(ExprCode(t, l, right, d + 1), MoveAll(t, ConcatMoves(t, l, d)) + tail);
      AsksInEither(ExprCode(t, l, left, d), ExprCode(t, l, right, d + 1) + (MoveAll(t, ConcatMoves(t, l, d)) + tail));
    case Binary(op, left, right) =>
      ExprAsks(functions, slots, t, l, left, d);
      ExprAsks(functions, slots, t, l, right, d + 1);
      BinaryAsksNothing(t, op, result, EvalOperand(l, d + 1));
      AsksInEither(ExprCode(t, l, right, d + 1), BinaryCode(t, op, result, EvalOperand(l, d + 1)));
      AsksInEither(ExprCode(t, l, left, d), ExprCode(t, l, right, d + 1) + BinaryCode(t, op, result, EvalOperand(l, d + 1)));
  }

  function InOrder(arguments: seq<Expr>, order: seq<nat>): seq<Expr>
    requires forall w :: 0 <= w < |order| ==> order[w] < |arguments|
  {
    seq(|order|, w requires 0 <= w < |order| => arguments[order[w]])
  }

  /** A call and the move of its answer. */
  lemma EndsQuietly(t: Target, call: seq<Instr>, result: Operand)
    requires |call| == 1 && !call[0].KernelCall?
    ensures !AsksKernel(call + Move(t, result, Reg(0)))
  {
    hide Move;
    MoveAsksNothing(t, result, Reg(0));
    AsksInEither(call, Move(t, result, Reg(0)));
  }

  lemma SyscallAsksKernel(t: Target, l: Layout, e: Expr, d: nat)
    requires e.Syscall?
    ensures AsksKernel(ExprCode(t, l, e, d))
  {
    hide AsksKernel, Move, MoveAll, EvalOperand, SyscallMoves, ArgumentsCode;
    var call := [KernelCall(|e.arguments|)];
    var moves := MoveAll(t, SyscallMoves(l, |e.arguments|, d));
    OneCallAsks(|e.arguments|);
    AsksInEither(call, Move(t, EvalOperand(l, d), Reg(0)));
    AsksInEither(moves, call + Move(t, EvalOperand(l, d), Reg(0)));
    AsksInEither(ArgumentsCode(t, l, e, 0, d), moves + (call + Move(t, EvalOperand(l, d), Reg(0))));
  }

  lemma OneCallAsks(count: nat)
    ensures AsksKernel([KernelCall(count)])
  {
    assert [KernelCall(count)][0].KernelCall?;
  }

  predicate AllFree(es: seq<Expr>) {
    forall i :: 0 <= i < |es| ==> SyscallFree(es[i])
  }

  lemma {:induction false} EachAsks(functions: seq<Function>, slots: nat, t: Target, l: Layout, e: Expr, es: seq<Expr>, w: nat, d: nat)
    requires Lists(e, es) && WellFormedExpr(functions, slots, e) && w <= |es|
    ensures AsksKernel(ArgumentsCode(t, l, e, w, d)) <==> !AllFree(es[w..])
    decreases e, 0, |es| - w
  {
    hide AsksKernel, ExprCode, SyscallFree;
    if w == |es| {
      NothingAsks();
    } else {
      assert HasWritten(e, w) && Written(e, w) == es[w..][0] && es[w..][1..] == es[w + 1..];
      WrittenIsWellFormed(functions, slots, e, w);
      ExprAsks(functions, slots, t, l, Written(e, w), d + w);
      EachAsks(functions, slots, t, l, e, es, w + 1, d);
      AsksInEither(ExprCode(t, l, Written(e, w), d + w), ArgumentsCode(t, l, e, w + 1, d));
      assert es[w..] == [es[w]] + es[w + 1..];
    }
  }

  lemma WrittenIsWellFormed(functions: seq<Function>, slots: nat, e: Expr, w: nat)
    requires WellFormedExpr(functions, slots, e) && HasWritten(e, w)
    ensures WellFormedExpr(functions, slots, Written(e, w))
  {}

  /** Every argument is written once, so the written ones are free exactly when all are. */
  lemma ArgumentsFree(e: Expr, arguments: seq<Expr>, order: seq<nat>, es: seq<Expr>)
    requires e.Call? && e.arguments == arguments && e.order == order
    requires IsPermutation(order) && |order| == |arguments| && es == InOrder(arguments, order)
    ensures es[0..] == es && (AllFree(es) <==> SyscallFree(e))
  {
    if AllFree(es) {
      forall s | 0 <= s < |arguments| ensures SyscallFree(arguments[s]) {
        SlotIsWritten(order, s);
        var w :| 0 <= w < |order| && order[w] == s;
        assert es[w] == arguments[s];
      }
    }
  }

  // ----- statements and functions -----

  lemma JumpAsksNothing(i: Instr)
    requires !i.KernelCall?
    ensures !AsksKernel([i])
  {}

  lemma TeardownAsksNothing(t: Target, l: Layout)
    ensures !AsksKernel(TeardownCode(t, l))
  {
    hide MoveAll, RestoreMoves;
    MovesAskNothing(t, RestoreMoves(l));
    AsksInEither(MoveAll(t, RestoreMoves(l)), [DropFrame, PopFrame]);
  }

  lemma TailAsks(functions: seq<Function>, slots: nat, t: Target, l: Layout, self: nat, call: Expr, at: nat)
    requires call.Call? && WellFormedExpr(functions, slots, call)
    ensures AsksKernel(TailCode(t, l, self, call, at)) <==> !SyscallFree(call)
  {
    hide AsksKernel, MoveAll, TeardownCode, ArgumentsCode, SelfMoves, BoundaryMoves, SyscallFree;
    var es := InOrder(call.arguments, call.order);
    EachAsks(functions, slots, t, l, call, es, 0, 0);
    ArgumentsFree(call, call.arguments, call.order, es);
    var arguments := ArgumentsCode(t, l, call, 0, 0);
    if call.function_ == self {
      var moves := MoveAll(t, SelfMoves(l, call.order));
      var back := [Jmp(-(at + |arguments| + |moves| + 1))];
      MovesAskNothing(t, SelfMoves(l, call.order));
      JumpAsksNothing(back[0]);
      AsksInEither(moves, back);
      AsksInEither(arguments, moves + back);
    } else {
      var moves, away := MoveAll(t, BoundaryMoves(t, l, call.order, 0)), TeardownCode(t, l) + [TailJump(call.function_)];
      MovesAskNothing(t, BoundaryMoves(t, l, call.order, 0));
      TeardownAsksNothing(t, l);
      JumpAsksNothing(TailJump(call.function_));
      AsksInEither(TeardownCode(t, l), [TailJump(call.function_)]);
      AsksInEither(moves, away);
      AsksInEither(arguments, moves + away);
    }
  }

  lemma ReturnAsks(functions: seq<Function>, slots: nat, t: Target, l: Layout, self: nat, value: Expr, at: nat, epilogue: int, closing: bool)
    requires WellFormedExpr(functions, slots, value)
    ensures AsksKernel(ReturnCode(t, l, self, value, at, epilogue, closing)) <==> !SyscallFree(value)
  {
    hide AsksKernel, TailCode, ExprCode, Move, SyscallFree, WellFormedExpr;
    if IsTail(value) {
      TailAsks(functions, slots, t, l, self, value, at);
    } else {
      var code := ResultCode(t, l, value);
      var jump := if closing then [] else [Jmp(epilogue - (at + |code| + 1))];
      ExprAsks(functions, slots, t, l, value, 0);
      MoveAsksNothing(t, Reg(0), EvalOperand(l, 0));
      AsksInEither(ExprCode(t, l, value, 0), Move(t, Reg(0), EvalOperand(l, 0)));
      if closing { NothingAsks(); } else { JumpAsksNothing(jump[0]); }
      AsksInEither(code, jump);
    }
  }

  lemma GuardAsks(functions: seq<Function>, slots: nat, t: Target, l: Layout, condition: Expr)
    requires WellFormedExpr(functions, slots, condition)
    ensures AsksKernel(GuardCode(t, l, condition)) <==> !SyscallFree(condition)
  {
    hide AsksKernel, ExprCode, CompareCode, EvalOperand;
    var o := EvalOperand(l, 0);
    if condition.Binary? && IsComparison(condition.op) {
      var compare := CompareCode(t, o, EvalOperand(l, 1));
      ExprAsks(functions, slots, t, l, condition.left, 0);
      ExprAsks(functions, slots, t, l, condition.right, 1);
      CompareAsksNothing(t, o, EvalOperand(l, 1));
      AsksInEither(ExprCode(t, l, condition.right, 1), compare);
      AsksInEither(ExprCode(t, l, condition.left, 0), ExprCode(t, l, condition.right, 1) + compare);
    } else {
      ExprAsks(functions, slots, t, l, condition, 0);
      TestAsksNothing(o);
      AsksInEither(ExprCode(t, l, condition, 0), if t.X64? then if o.Reg? then [Test(o.reg)] else [Mov(Reg(RAX), o), Test(RAX)] else A64Load(o, 0));
    }
  }

  lemma CompareAsksNothing(t: Target, left: Operand, right: Operand)
    ensures !AsksKernel(CompareCode(t, left, right))
  {}

  lemma TestAsksNothing(o: Operand)
    ensures o.Reg? ==> !AsksKernel([Test(o.reg)])
    ensures !AsksKernel([Mov(Reg(RAX), o), Test(RAX)]) && !AsksKernel(A64Load(o, 0))
  {}

  lemma StmtAsks(functions: seq<Function>, slots: nat, t: Target, l: Layout, self: nat, s: Stmt, at: nat, epilogue: int, closing: bool)
    requires WellFormedStmt(functions, slots, s)
    ensures AsksKernel(StmtCode(t, l, self, s, at, epilogue, closing)) <==> !SyscallFreeStmt(s)
  {
    hide AsksKernel, ReturnCode, GuardCode, ExprCode, Move, SyscallFree, WellFormedExpr, EvalOperand, ValueOperand;
    match s
    case IfReturn(condition, value) =>
      var guard := GuardCode(t, l, condition);
      var guarded := ReturnCode(t, l, self, value, at + |guard| + 1, epilogue, false);
      var skip := [SkipBranch(t, l, condition, |guarded|)];
      GuardAsks(functions, slots, t, l, condition);
      ReturnAsks(functions, slots, t, l, self, value, at + |guard| + 1, epilogue, false);
      JumpAsksNothing(skip[0]);
      AsksInEither(skip, guarded);
      AsksInEither(guard, skip + guarded);
    case ReturnStmt(value) => ReturnAsks(functions, slots, t, l, self, value, at, epilogue, closing);
    case PrintStmt(value) =>
      var move := Move(t, Reg(ArgumentRegister(t, 0)), EvalOperand(l, 0));
      ExprAsks(functions, slots, t, l, value, 0);
      MoveAsksNothing(t, Reg(ArgumentRegister(t, 0)), EvalOperand(l, 0));
      JumpAsksNothing(CallPrint);
      AsksInEither(move, [CallPrint]);
      AsksInEither(ExprCode(t, l, value, 0), move + [CallPrint]);
    case Let(slot, value) =>
      ExprAsks(functions, slots, t, l, value, 0);
      MoveAsksNothing(t, ValueOperand(l, slot), EvalOperand(l, 0));
      AsksInEither(ExprCode(t, l, value, 0), Move(t, ValueOperand(l, slot), EvalOperand(l, 0)));
    case Evaluate(value) => ExprAsks(functions, slots, t, l, value, 0);
  }

  predicate FreeFrom(body: seq<Stmt>, i: nat) {
    forall k :: i <= k < |body| ==> SyscallFreeStmt(body[k])
  }

  lemma {:induction false} BodyAsks(functions: seq<Function>, slots: nat, t: Target, l: Layout, self: nat, body: seq<Stmt>, i: nat, at: nat, epilogue: int)
    requires forall k :: i <= k < |body| ==> WellFormedStmt(functions, slots, body[k])
    ensures AsksKernel(BodyCode(t, l, self, body, i, at, epilogue)) <==> !FreeFrom(body, i)
    decreases |body| - i
  {
    hide AsksKernel, StmtCode, SyscallFreeStmt, WellFormedStmt;
    if i >= |body| {
      NothingAsks();
    } else {
      var code := StmtCode(t, l, self, body[i], at, epilogue, i + 1 == |body|);
      StmtAsks(functions, slots, t, l, self, body[i], at, epilogue, i + 1 == |body|);
      BodyAsks(functions, slots, t, l, self, body, i + 1, at + |code|, epilogue);
      AsksInEither(code, BodyCode(t, l, self, body, i + 1, at + |code|, epilogue));
    }
  }

  lemma PrologueAsksNothing(t: Target, l: Layout, parameters: nat)
    ensures !AsksKernel(PrologueCode(t, l, parameters))
  {
    hide MoveAll, SaveMoves, ParameterMoves;
    MovesAskNothing(t, SaveMoves(l));
    MovesAskNothing(t, ParameterMoves(t, l, parameters));
    AsksInEither(MoveAll(t, SaveMoves(l)), MoveAll(t, ParameterMoves(t, l, parameters)));
    AsksInEither(FrameOpen(t, l), MoveAll(t, SaveMoves(l)) + MoveAll(t, ParameterMoves(t, l, parameters)));
  }

  lemma EndAsksNothing(t: Target, l: Layout, body: seq<Stmt>)
    ensures !AsksKernel(ImplicitResult(body) + EpilogueCode(t, l))
  {
    hide TeardownCode;
    TeardownAsksNothing(t, l);
    AsksInEither(TeardownCode(t, l), [Ret]);
    AsksInEither(ImplicitResult(body), EpilogueCode(t, l));
  }

  /** The code of a function calls the kernel exactly when its body makes a system call. */
  lemma FunctionAsks(functions: seq<Function>, t: Target, l: Layout, self: nat, f: Function)
    requires WellFormedFunction(functions, f)
    ensures AsksKernel(FunctionCode(t, l, self, f)) <==> !FreeFrom(f.body, 0)
  {
    hide AsksKernel, PrologueCode, BodyCode, EpilogueCode, ImplicitResult, SyscallFreeStmt, WellFormedStmt;
    var body := BodyCode(t, l, self, f.body, 0, 0, EpilogueAt(t, l, self, f.body));
    var end := ImplicitResult(f.body) + EpilogueCode(t, l);
    PrologueAsksNothing(t, l, f.parameters);
    BodyAsks(functions, f.FrameSlots(), t, l, self, f.body, 0, 0, EpilogueAt(t, l, self, f.body));
    EndAsksNothing(t, l, f.body);
    AsksInEither(body, end);
    AsksInEither(PrologueCode(t, l, f.parameters), body + end);
  }

  /**
   The programs compilation refuses for AArch64 are those whose code, under any
   layouts, would call the kernel.
   */
  lemma RefusedAsksKernel(t: Target, p: Program, layouts: seq<Layout>)
    requires WellFormed(p) && |layouts| == |p.functions|
    ensures !Compilation.SyscallFreeProgram(p) <==>
      exists f :: 0 <= f < |p.functions| && AsksKernel(FunctionCode(t, layouts[f], f, p.functions[f]))
  {
    hide AsksKernel, FunctionCode, SyscallFreeStmt, WellFormedFunction;
    forall f | 0 <= f < |p.functions|
      ensures AsksKernel(FunctionCode(t, layouts[f], f, p.functions[f])) <==> !FreeFrom(p.functions[f].body, 0)
    {
      FunctionAsks(p.functions, t, layouts[f], f, p.functions[f]);
    }
  }
}
