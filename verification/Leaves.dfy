/** What the instruction sequence of one operation does, target by target. */
module Leaves {
  import opened Words
  import opened Division
  import opened Core
  import opened Targets
  import opened Machine
  import opened Lowering
  import opened Blocks

  /** An operand the layout may hand out. */
  predicate Usable(file: TargetRegisterFile, o: Operand) {
    o.Slot? || IsAllocatable(file, o.reg)
  }

  /** Only `into` and registers that are never allocated may have changed. */
  ghost predicate Only(t: Target, m: Machine, m': Machine, into: Operand) {
    && m'.sp == m.sp && m'.fp == m.fp && m'.out == m.out
    && (forall r: nat :: IsAllocatable(FileOf(t), r) && Reg(r) != into ==> Get(m'.regs, r) == Get(m.regs, r))
    && (forall a :: !(into.Slot? && a == SlotAddress(t, m, into.slot)) ==> Get(m'.mem, a) == Get(m.mem, a))
  }

  lemma MoveLeaf(t: Target, into: Operand, from: Operand, m: Machine)
    ensures RunBlock(t, Move(t, into, from), 0, m).Falls?
    ensures var m' := RunBlock(t, Move(t, into, from), 0, m).m;
      Read(t, m', into) == Read(t, m, from) && Only(t, m, m', into)
  {
    var code := Move(t, into, from);
    if |code| == 1 {
      var m1 := Write(t, m, into, Read(t, m, from));
      assert RunBlock(t, code, 1, m1) == Falls(m1);
    } else if |code| == 2 {
      var m1 := Write(t, m, Reg(0), Read(t, m, from));
      var m2 := Write(t, m1, into, Read(t, m1, Reg(0)));
      assert RunBlock(t, code, 2, m2) == Falls(m2);
      assert RunBlock(t, code, 1, m1) == Falls(m2);
    }
  }

  /** A block of one local instruction. */
  lemma OneStep(t: Target, i: Instr, m: Machine)
    ensures match ExecLocal(t, i, m)
            case Next(m', 0) => RunBlock(t, [i], 0, m) == Falls(m')
            case Next(_, _) => true
            case Traps(kind) => RunBlock(t, [i], 0, m) == Stops(kind, m.out)
            case _ => RunBlock(t, [i], 0, m) == Broken
  {
    match ExecLocal(t, i, m)
    case Next(m', skip) =>
      if skip == 0 { assert RunBlock(t, [i], 1, m') == Falls(m'); }
    case _ =>
  }

  /** One conditional branch inside a block. */
  lemma BranchStep(t: Target, code: seq<Instr>, i: nat, m: Machine)
    requires i < |code| && code[i].Jcc? && code[i].disp >= 0
    ensures RunBlock(t, code, i, m) == RunBlock(t, code, i + 1 + (if Holds(code[i].cond, m.flags) then code[i].disp else 0), m)
  {}

  /** One instruction inside a block. */
  lemma PlainStep(t: Target, code: seq<Instr>, i: nat, m: Machine, m': Machine)
    requires i < |code| && ExecLocal(t, code[i], m) == On(m')
    ensures RunBlock(t, code, i, m) == RunBlock(t, code, i + 1, m')
  {}

  /** An overflow trap stops the block exactly when the flag is set. */
  lemma TrapStep(t: Target, code: seq<Instr>, i: nat, m: Machine, kind: TrapKind)
    requires i < |code| && code[i] == TrapIf(IfOverflow, kind)
    ensures RunBlock(t, code, i, m) == if m.flags.overflow then Stops(kind, m.out) else RunBlock(t, code, i + 1, m)
  {}

  lemma JumpStep(t: Target, code: seq<Instr>, i: nat, m: Machine, disp: nat)
    requires i < |code| && code[i] == Jmp(disp)
    ensures RunBlock(t, code, i, m) == RunBlock(t, code, i + 1 + disp, m)
  {}

  lemma EndStep(t: Target, code: seq<Instr>, m: Machine)
    ensures RunBlock(t, code, |code|, m) == Falls(m)
  {}

  lemma NegStep(t: Target, code: seq<Instr>, i: nat, m: Machine, r: nat, a: Int64)
    requires i < |code| && code[i] == NegFlags(Reg(r), Reg(r)) && Get(m.regs, r) == Int(a)
    ensures var n := 0 - a;
      RunBlock(t, code, i, m) ==
        RunBlock(t, code, i + 1, m.(regs := m.regs[r := Int(Wrap(n))], flags := Flags(Wrap(n) == 0, Wrap(n) < 0, !Fits(n))))
  {
    NegExec(t, m, r, a);
    hide ExecLocal, RunBlock, Wrap;
    var n := 0 - a;
    PlainStep(t, code, i, m, m.(regs := m.regs[r := Int(Wrap(n))], flags := Flags(Wrap(n) == 0, Wrap(n) < 0, !Fits(n))));
  }

  lemma NegExec(t: Target, m: Machine, r: nat, a: Int64)
    requires Get(m.regs, r) == Int(a)
    ensures var n := 0 - a;
      ExecLocal(t, NegFlags(Reg(r), Reg(r)), m) ==
        On(m.(regs := m.regs[r := Int(Wrap(n))], flags := Flags(Wrap(n) == 0, Wrap(n) < 0, !Fits(n))))
  {
    hide Wrap;
  }

  lemma MovStep(t: Target, code: seq<Instr>, i: nat, m: Machine)
    requires i < |code| && code[i].Mov?
    ensures RunBlock(t, code, i, m) == RunBlock(t, code, i + 1, Write(t, m, code[i].into, Read(t, m, code[i].from)))
  {}

  lemma LiteralLeaf(t: Target, result: Operand, value: Int64, m: Machine)
    requires Usable(FileOf(t), result)
    ensures RunBlock(t, LiteralCode(result, value), 0, m).Falls?
    ensures var m' := RunBlock(t, LiteralCode(result, value), 0, m).m;
      Read(t, m', result) == Int(value) && Only(t, m, m', result)
  {
    OneStep(t, Imm(if result.Reg? then result.reg else 0, value), m);
    if result.Slot? {
      var code := LiteralCode(result, value);
      assert code == [Imm(0, value)] + [Mov(result, Reg(0))];
      BlockAppend(t, [Imm(0, value)], [Mov(result, Reg(0))], m);
      OneStep(t, Mov(result, Reg(0)), m.(regs := m.regs[0 := Int(value)]));
    }
  }

  lemma TextLiteralLeaf(t: Target, result: Operand, text: string, m: Machine)
    requires Usable(FileOf(t), result)
    ensures RunBlock(t, TextLiteralCode(result, text), 0, m).Falls?
    ensures var m' := RunBlock(t, TextLiteralCode(result, text), 0, m).m;
      Read(t, m', result) == Text(text) && Only(t, m, m', result)
  {
    OneStep(t, TextAddress(if result.Reg? then result.reg else 0, text), m);
    if result.Slot? {
      var code := TextLiteralCode(result, text);
      assert code == [TextAddress(0, text)] + [Mov(result, Reg(0))];
      BlockAppend(t, [TextAddress(0, text)], [Mov(result, Reg(0))], m);
      OneStep(t, Mov(result, Reg(0)), m.(regs := m.regs[0 := Text(text)]));
    }
  }

  /** The sequence ends as the arithmetic says: at the trap stub, or with the answer in `result`. */
  ghost predicate Ends(t: Target, m: Machine, end: BlockEnd, result: Operand, a: Arithmetic) {
    match a
    case Fails(kind) => end == Stops(kind, m.out)
    case Exactly(n) => end.Falls? && Read(t, end.m, result) == Int(n) && Only(t, m, end.m, result)
  }

  // ----- AArch64 operand loads and the final store -----

  lemma LoadLeaf(o: Operand, scratch: nat, m: Machine)
    requires !IsAllocatable(A64_FILE, scratch)
    ensures RunBlock(A64, A64Load(o, scratch), 0, m).Falls?
    ensures var m' := RunBlock(A64, A64Load(o, scratch), 0, m).m;
      && Get(m'.regs, A64Register(o, scratch)) == Read(A64, m, o)
      && Only(A64, m, m', Reg(scratch))
      && m'.mem == m.mem
      && (forall r: nat :: r != scratch ==> Get(m'.regs, r) == Get(m.regs, r))
  {
    if o.Slot? {
      OneStep(A64, Mov(Reg(scratch), o), m);
    }
  }

  lemma StoreLeaf(into: nat, result: Operand, m: Machine)
    requires Usable(A64_FILE, result) && (result.Reg? ==> into == result.reg)
    ensures RunBlock(A64, A64Store(into, result), 0, m).Falls?
    ensures var m' := RunBlock(A64, A64Store(into, result), 0, m).m;
      Read(A64, m', result) == Get(m.regs, into) && Only(A64, m, m', result)
  {
    if result.Slot? {
      OneStep(A64, Mov(result, Reg(into)), m);
    }
  }

  /** Running a after b, when both confine their changes to the same place. */
  lemma Then(t: Target, a: seq<Instr>, b: seq<Instr>, m: Machine, result: Operand, arithmetic: Arithmetic)
    requires RunBlock(t, a, 0, m).Falls?
    requires Only(t, m, RunBlock(t, a, 0, m).m, result)
    requires var m1 := RunBlock(t, a, 0, m).m; Ends(t, m1, RunBlock(t, b, 0, m1), result, arithmetic)
    ensures Ends(t, m, RunBlock(t, a + b, 0, m), result, arithmetic)
  {
    BlockAppend(t, a, b, m);
  }

  // ----- negation -----

  /** A flag-setting instruction followed by its overflow branch. */
  lemma Guarded(t: Target, i: Instr, kind: TrapKind, result: Operand, m: Machine, n: int)
    requires ExecLocal(t, i, m).Next? && ExecLocal(t, i, m).skip == 0
    requires var m1 := ExecLocal(t, i, m).m;
      m1.flags.overflow == !Fits(n) && m1.out == m.out
      && (Fits(n) ==> Read(t, m1, result) == Int(n) && Only(t, m, m1, result))
    ensures Ends(t, m, RunBlock(t, [i, TrapIf(IfOverflow, kind)], 0, m), result, Checked(n, kind))
  {
    var m1 := ExecLocal(t, i, m).m;
    var code := [i, TrapIf(IfOverflow, kind)];
    assert RunBlock(t, code, 0, m) == RunBlock(t, code, 1, m1);
    if Fits(n) {
      assert RunBlock(t, code, 2, m1) == Falls(m1);
    }
  }

  lemma NegateInstr(t: Target, o: Operand, m: Machine)
    requires IsInt(t, m, o) && (o.Slot? || IsAllocatable(FileOf(t), o.reg) || o.reg == 0)
    ensures var n := 0 - IntAt(t, m, o);
      Ends(t, m, RunBlock(t, [NegFlags(o, o), TrapIf(IfOverflow, NegateOverflow)], 0, m), o, Checked(n, NegateOverflow))
  {
    var n := 0 - IntAt(t, m, o);
    assert ExecLocal(t, NegFlags(o, o), m) ==
      On(Write(t, m, o, Int(Wrap(n))).(flags := Flags(Wrap(n) == 0, Wrap(n) < 0, !Fits(n))));
    Guarded(t, NegFlags(o, o), NegateOverflow, o, m, n);
  }

  lemma NegateLeaf(t: Target, result: Operand, m: Machine)
    requires Usable(FileOf(t), result) && IsInt(t, m, result)
    ensures Ends(t, m, RunBlock(t, NegateCode(t, result), 0, m), result,
                 Checked(0 - IntAt(t, m, result), NegateOverflow))
  {
    if t.X64? {
      NegateInstr(X64, result, m);
    } else {
      var n := 0 - IntAt(A64, m, result);
      var into := A64Register(result, 0);
      var load := A64Load(result, 0);
      var core := [NegFlags(Reg(into), Reg(into)), TrapIf(IfOverflow, NegateOverflow)];
      LoadLeaf(result, 0, m);
      NegateInstr(A64, Reg(into), RunBlock(A64, load, 0, m).m);
      Finished(load, core, into, result, m, Checked(n, NegateOverflow));
      assert NegateCode(A64, result) == load + core + A64Store(into, result);
    }
  }

  /** Load, compute into a register, store: the frame of every AArch64 operation. */
  lemma Finished(load: seq<Instr>, core: seq<Instr>, into: nat, result: Operand, m: Machine, a: Arithmetic)
    requires Usable(A64_FILE, result) && into == A64Register(result, 0)
    requires RunBlock(A64, load, 0, m).Falls?
    requires var m1 := RunBlock(A64, load, 0, m).m;
      Only(A64, m, m1, Reg(0)) && Ends(A64, m1, RunBlock(A64, core, 0, m1), Reg(into), a)
    ensures Ends(A64, m, RunBlock(A64, load + core + A64Store(into, result), 0, m), result, a)
  {
    hide RunBlock;
    var m1 := RunBlock(A64, load, 0, m).m;
    BlockAppend(A64, load, core, m);
    BlockAppend(A64, load + core, A64Store(into, result), m);
    if a.Exactly? {
      var m2 := RunBlock(A64, core, 0, m1).m;
      StoreLeaf(into, result, m2);
    }
  }

  // ----- addition, subtraction, multiplication -----

  /** The machine after a flag-setting sum or difference. */
  function Summed(t: Target, into: Operand, m: Machine, n: int): Machine {
    Write(t, m, into, Int(Wrap(n))).(flags := Flags(Wrap(n) == 0, Wrap(n) < 0, !Fits(n)))
  }

  lemma SumWritten(t: Target, into: Operand, m: Machine, n: int)
    ensures var m1 := Summed(t, into, m, n);
      && m1.flags.overflow == !Fits(n) && m1.out == m.out
      && (Fits(n) ==> Read(t, m1, into) == Int(n) && Only(t, m, m1, into))
  {}

  lemma AddExec(t: Target, into: Operand, left: Operand, right: Operand, m: Machine)
    requires IsInt(t, m, left) && IsInt(t, m, right)
    ensures var n := IntAt(t, m, left) + IntAt(t, m, right);
      ExecLocal(t, AddFlags(into, left, right), m) == On(Summed(t, into, m, n))
  {
    hide Write, IntAt, IsInt;
  }

  lemma AddInstr(t: Target, into: Operand, left: Operand, right: Operand, m: Machine)
    requires IsInt(t, m, left) && IsInt(t, m, right)
    ensures Ends(t, m, RunBlock(t, [AddFlags(into, left, right), TrapIf(IfOverflow, AddOverflow)], 0, m), into,
                 Checked(IntAt(t, m, left) + IntAt(t, m, right), AddOverflow))
  {
    var n := IntAt(t, m, left) + IntAt(t, m, right);
    AddExec(t, into, left, right, m);
    SumWritten(t, into, m, n);
    hide ExecLocal, RunBlock, Write, Read, Ends, Only, IntAt, IsInt, Wrap;
    Guarded(t, AddFlags(into, left, right), AddOverflow, into, m, n);
  }

  lemma SubExec(t: Target, into: Operand, left: Operand, right: Operand, m: Machine)
    requires IsInt(t, m, left) && IsInt(t, m, right)
    ensures var n := IntAt(t, m, left) - IntAt(t, m, right);
      ExecLocal(t, SubFlags(into, left, right), m) == On(Summed(t, into, m, n))
  {
    hide Write, IntAt, IsInt;
  }

  lemma SubInstr(t: Target, into: Operand, left: Operand, right: Operand, m: Machine)
    requires IsInt(t, m, left) && IsInt(t, m, right)
    ensures Ends(t, m, RunBlock(t, [SubFlags(into, left, right), TrapIf(IfOverflow, SubtractOverflow)], 0, m), into,
                 Checked(IntAt(t, m, left) - IntAt(t, m, right), SubtractOverflow))
  {
    var n := IntAt(t, m, left) - IntAt(t, m, right);
    SubExec(t, into, left, right, m);
    SumWritten(t, into, m, n);
    hide ExecLocal, RunBlock, Write, Read, Ends, Only, IntAt, IsInt, Wrap;
    Guarded(t, SubFlags(into, left, right), SubtractOverflow, into, m, n);
  }

  lemma ImulInstr(reg: nat, right: Operand, m: Machine)
    requires IsInt(X64, m, Reg(reg)) && IsInt(X64, m, right)
    ensures Ends(X64, m, RunBlock(X64, [Imul(reg, right), TrapIf(IfOverflow, MultiplyOverflow)], 0, m), Reg(reg),
                 Checked(IntAt(X64, m, Reg(reg)) * IntAt(X64, m, right), MultiplyOverflow))
  {
    var n := IntAt(X64, m, Reg(reg)) * IntAt(X64, m, right);
    assert ExecLocal(X64, Imul(reg, right), m) ==
      On(Write(X64, m, Reg(reg), Int(Wrap(n))).(flags := Flags(false, false, !Fits(n))));
    Guarded(X64, Imul(reg, right), MultiplyOverflow, Reg(reg), m, n);
  }

  /** Loading a spilled right operand into rax leaves both operands readable. */
  lemma RaxLoad(o: Operand, m: Machine)
    requires Usable(X64_FILE, o)
    ensures RunBlock(X64, [Mov(Reg(RAX), o)], 0, m) == Falls(m.(regs := m.regs[RAX := Read(X64, m, o)]))
  {
    OneStep(X64, Mov(Reg(RAX), o), m);
  }

  lemma AddX64(result: Operand, right: Operand, m: Machine)
    requires Usable(X64_FILE, result) && Usable(X64_FILE, right)
    requires IsInt(X64, m, result) && IsInt(X64, m, right)
    ensures Ends(X64, m, RunBlock(X64, X64BinaryCode(Add, result, right), 0, m), result,
                 Checked(IntAt(X64, m, result) + IntAt(X64, m, right), AddOverflow))
  {
    if result.Reg? || right.Reg? {
      AddInstr(X64, result, result, right, m);
    } else {
      RaxLoad(right, m);
      var m1 := m.(regs := m.regs[RAX := Read(X64, m, right)]);
      AddInstr(X64, result, result, Reg(RAX), m1);
      Then(X64, [Mov(Reg(RAX), right)], AddCode(result, Reg(RAX)), m, result,
           Checked(IntAt(X64, m, result) + IntAt(X64, m, right), AddOverflow));
    }
  }

  lemma SubX64(result: Operand, right: Operand, m: Machine)
    requires Usable(X64_FILE, result) && Usable(X64_FILE, right)
    requires IsInt(X64, m, result) && IsInt(X64, m, right)
    ensures Ends(X64, m, RunBlock(X64, X64BinaryCode(Subtract, result, right), 0, m), result,
                 Checked(IntAt(X64, m, result) - IntAt(X64, m, right), SubtractOverflow))
  {
    if result.Reg? || right.Reg? {
      SubInstr(X64, result, result, right, m);
    } else {
      RaxLoad(right, m);
      var m1 := m.(regs := m.regs[RAX := Read(X64, m, right)]);
      SubInstr(X64, result, result, Reg(RAX), m1);
      Then(X64, [Mov(Reg(RAX), right)], SubCode(result, Reg(RAX)), m, result,
           Checked(IntAt(X64, m, result) - IntAt(X64, m, right), SubtractOverflow));
    }
  }

  /** Moving an answer out of rax ends an x86-64 sequence. */
  lemma OutOfRax(code: seq<Instr>, result: Operand, m: Machine, a: Arithmetic)
    requires Usable(X64_FILE, result)
    requires Ends(X64, m, RunBlock(X64, code, 0, m), Reg(RAX), a)
    ensures Ends(X64, m, RunBlock(X64, code + [Mov(result, Reg(RAX))], 0, m), result, a)
  {
    BlockAppend(X64, code, [Mov(result, Reg(RAX))], m);
    if a.Exactly? {
      var m1 := RunBlock(X64, code, 0, m).m;
      OneStep(X64, Mov(result, Reg(RAX)), m1);
    }
  }

  lemma MulX64(result: Operand, right: Operand, m: Machine)
    requires Usable(X64_FILE, result) && Usable(X64_FILE, right)
    requires IsInt(X64, m, result) && IsInt(X64, m, right)
    ensures Ends(X64, m, RunBlock(X64, X64BinaryCode(Multiply, result, right), 0, m), result,
                 Checked(IntAt(X64, m, result) * IntAt(X64, m, right), MultiplyOverflow))
  {
    var a := Checked(IntAt(X64, m, result) * IntAt(X64, m, right), MultiplyOverflow);
    if result.Reg? {
      ImulInstr(result.reg, right, m);
    } else {
      RaxLoad(result, m);
      var m1 := m.(regs := m.regs[RAX := Read(X64, m, result)]);
      ImulInstr(RAX, right, m1);
      var code := [Imul(RAX, right), TrapIf(IfOverflow, MultiplyOverflow)];
      Then(X64, [Mov(Reg(RAX), result)], code, m, Reg(RAX), a);
      OutOfRax([Mov(Reg(RAX), result)] + code, result, m, a);
      assert X64BinaryCode(Multiply, result, right) == [Mov(Reg(RAX), result)] + code + [Mov(result, Reg(RAX))];
    }
  }

  /** Both operands loaded: the two registers AArch64 computes from. */
  lemma LoadPair(left: Operand, right: Operand, m: Machine)
    requires Usable(A64_FILE, left) && Usable(A64_FILE, right)
    ensures RunBlock(A64, A64Load(left, 0) + A64Load(right, 1), 0, m).Falls?
    ensures var m' := RunBlock(A64, A64Load(left, 0) + A64Load(right, 1), 0, m).m;
      && Get(m'.regs, A64Register(left, 0)) == Read(A64, m, left)
      && Get(m'.regs, A64Register(right, 1)) == Read(A64, m, right)
      && Only(A64, m, m', Reg(0))
  {
    LoadLeaf(left, 0, m);
    var m1 := RunBlock(A64, A64Load(left, 0), 0, m).m;
    LoadLeaf(right, 1, m1);
    BlockAppend(A64, A64Load(left, 0), A64Load(right, 1), m);
  }

  /** The overflow test of the wide product, once its halves are in x9 and x10. */
  lemma MulTest(code: seq<Instr>, into: nat, m: Machine, n: int)
    requires |code| == 6 && code[3] == Cmp(Reg(10), Reg(11))
    requires code[4] == TrapIf(IfNotEqual, MultiplyOverflow) && code[5] == Mov(Reg(into), Reg(9))
    requires Get(m.regs, 9) == Int(Wrap(n)) && Fits(n / TWO64) && Get(m.regs, 10) == Int(n / TWO64)
    requires Get(m.regs, 11) == Int(if Wrap(n) < 0 then -1 else 0)
    ensures Ends(A64, m, RunBlock(A64, code, 3, m), Reg(into), Checked(n, MultiplyOverflow))
  {
    HighHalfTest(n);
    var m4 := m.(flags := FlagsOfDifference(n / TWO64, if Wrap(n) < 0 then -1 else 0));
    assert ExecLocal(A64, code[3], m) == On(m4);
    assert RunBlock(A64, code, 3, m) == RunBlock(A64, code, 4, m4);
    assert m4.flags.zero <==> Fits(n) by {
      SameDifference(n / TWO64, if Wrap(n) < 0 then -1 else 0);
    }
    if Fits(n) {
      var m5 := m4.(regs := m4.regs[into := Int(n)]);
      assert ExecLocal(A64, code[5], m4) == On(m5);
      assert RunBlock(A64, code, 4, m4) == RunBlock(A64, code, 5, m4);
      assert RunBlock(A64, code, 5, m4) == RunBlock(A64, code, 6, m5);
      assert RunBlock(A64, code, 6, m5) == Falls(m5);
    }
  }

  /** A difference of two words wraps to zero only when they are equal. */
  lemma SameDifference(a: Int64, b: Int64)
    ensures Wrap(a - b) == 0 <==> a == b
  {}

  lemma EndsFrom(t: Target, m: Machine, m1: Machine, end: BlockEnd, result: Operand, a: Arithmetic)
    requires Only(t, m, m1, result) && Ends(t, m1, end, result, a)
    ensures Ends(t, m, end, result, a)
  {}

  lemma ThreeSteps(t: Target, code: seq<Instr>, m: Machine, m1: Machine, m2: Machine, m3: Machine)
    requires |code| >= 3
    requires ExecLocal(t, code[0], m) == On(m1)
    requires ExecLocal(t, code[1], m1) == On(m2)
    requires ExecLocal(t, code[2], m2) == On(m3)
    ensures RunBlock(t, code, 0, m) == RunBlock(t, code, 3, m3)
  {
    assert RunBlock(t, code, 0, m) == RunBlock(t, code, 1, m1);
    assert RunBlock(t, code, 1, m1) == RunBlock(t, code, 2, m2);
  }

  lemma MulLowStep(rd: nat, left: nat, right: nat, m: Machine, n: int, low: Int64)
    requires IsInt(A64, m, Reg(left)) && IsInt(A64, m, Reg(right))
    requires n == IntAt(A64, m, Reg(left)) * IntAt(A64, m, Reg(right)) && low == Wrap(n)
    ensures ExecLocal(A64, MulLow(rd, left, right), m) == On(m.(regs := m.regs[rd := Int(low)]))
  {}

  lemma MulHighStep(rd: nat, left: nat, right: nat, m: Machine, n: int, high: Int64)
    requires IsInt(A64, m, Reg(left)) && IsInt(A64, m, Reg(right))
    requires n == IntAt(A64, m, Reg(left)) * IntAt(A64, m, Reg(right)) && high == n / TWO64
    ensures ExecLocal(A64, MulHigh(rd, left, right), m) == On(m.(regs := m.regs[rd := Int(high)]))
  {}

  /** `mul`, `smulh` and `asr` leave the low half, the high half and the low half's sign. */
  lemma MulPrefix(into: nat, left: nat, right: nat, m: Machine, m1: Machine, m2: Machine, m3: Machine)
    requires ExecLocal(A64, MulLow(9, left, right), m) == On(m1)
    requires ExecLocal(A64, MulHigh(10, left, right), m1) == On(m2)
    requires ExecLocal(A64, SignOf(11, 9), m2) == On(m3)
    ensures var code := A64Compute(Multiply, into, left, right);
      RunBlock(A64, code, 0, m) == RunBlock(A64, code, 3, m3)
  {
    ThreeSteps(A64, A64Compute(Multiply, into, left, right), m, m1, m2, m3);
  }

  /** The three operands of the overflow test reach x9, x10 and x11 with nothing outside the temporaries changed. */
  lemma MulTemporaries(m: Machine, low: Int64, high: Int64) returns (m1: Machine, m2: Machine, m3: Machine)
    ensures m1 == m.(regs := m.regs[9 := Int(low)]) && m2 == m1.(regs := m1.regs[10 := Int(high)])
    ensures ExecLocal(A64, SignOf(11, 9), m2) == On(m3)
    ensures Get(m3.regs, 9) == Int(low) && Get(m3.regs, 10) == Int(high)
    ensures Get(m3.regs, 11) == Int(if low < 0 then -1 else 0)
    ensures forall o :: Only(A64, m, m3, o)
  {
    m1 := m.(regs := m.regs[9 := Int(low)]);
    m2 := m1.(regs := m1.regs[10 := Int(high)]);
    m3 := m2.(regs := m2.regs[11 := Int(if low < 0 then -1 else 0)]);
  }

  lemma MulInstrs(into: nat, left: nat, right: nat, m: Machine)
    requires IsInt(A64, m, Reg(left)) && IsInt(A64, m, Reg(right))
    requires left !in {9, 10, 11} && right !in {9, 10, 11}
    ensures Ends(A64, m, RunBlock(A64, A64Compute(Multiply, into, left, right), 0, m), Reg(into),
                 Checked(IntAt(A64, m, Reg(left)) * IntAt(A64, m, Reg(right)), MultiplyOverflow))
  {
    var n := IntAt(A64, m, Reg(left)) * IntAt(A64, m, Reg(right));
    HighHalfFits(IntAt(A64, m, Reg(left)), IntAt(A64, m, Reg(right)));
    var low, high: Int64 := Wrap(n), n / TWO64;
    var m1, m2, m3 := MulTemporaries(m, low, high);
    MulLowStep(9, left, right, m, n, low);
    MulHighStep(10, left, right, m1, n, high);
    MulPrefix(into, left, right, m, m1, m2, m3);
    var code := A64Compute(Multiply, into, left, right);
    MulTest(code, into, m3, n);
    EndsFrom(A64, m, m3, RunBlock(A64, code, 3, m3), Reg(into), Checked(n, MultiplyOverflow));
  }

  lemma ProductBound(x: nat, y: nat, limit: nat)
    requires x <= limit && y <= limit
    ensures x * y <= limit * limit
  {
    AtLeast(x, limit, y);
    AtLeast(limit, limit, x);
  }

  /** The high half of a product of two words is a word. */
  lemma HighHalfFits(a: Int64, b: Int64)
    ensures Fits((a * b) / TWO64)
  {
    assert Abs(a) <= 0x8000_0000_0000_0000 && Abs(b) <= 0x8000_0000_0000_0000;
    ProductBound(Abs(a), Abs(b), 0x8000_0000_0000_0000);
    AbsProduct(a, b);
  }

  // ----- comparison -----

  /** The flags of a difference answer every comparison of the two numbers. */
  lemma FlagsDecide(a: Int64, b: Int64)
    ensures var f := FlagsOfDifference(a, b);
      && (Holds(IfEqual, f) <==> a == b) && (Holds(IfNotEqual, f) <==> a != b)
      && (Holds(IfLess, f) <==> a < b) && (Holds(IfLessEqual, f) <==> a <= b)
      && (Holds(IfGreater, f) <==> a > b) && (Holds(IfGreaterEqual, f) <==> a >= b)
  {
    SameDifference(a, b);
  }

  lemma CompareDecides(op: BinaryOp, a: Int64, b: Int64)
    requires IsComparison(op)
    ensures Apply(op, a, b) == Exactly(if Holds(CondOf(op), FlagsOfDifference(a, b)) then 1 else 0)
  {
    FlagsDecide(a, b);
  }

  /** The comparison of two operands is in the flags and nothing live moved. */
  ghost predicate Compared(t: Target, m: Machine, end: BlockEnd, left: Operand, right: Operand) {
    && end.Falls?
    && end.m.flags == FlagsOfDifference(IntAt(t, m, left), IntAt(t, m, right))
    && Only(t, m, end.m, Reg(0))
  }

  lemma CompareLeafX64(left: Operand, right: Operand, m: Machine)
    requires Usable(X64_FILE, left) && Usable(X64_FILE, right)
    requires IsInt(X64, m, left) && IsInt(X64, m, right)
    ensures Compared(X64, m, RunBlock(X64, CompareCode(X64, left, right), 0, m), left, right)
  {
    if left.Reg? || right.Reg? {
      OneStep(X64, Cmp(left, right), m);
    } else {
      RaxLoad(right, m);
      var m1 := m.(regs := m.regs[RAX := Read(X64, m, right)]);
      OneStep(X64, Cmp(left, Reg(RAX)), m1);
      BlockAppend(X64, [Mov(Reg(RAX), right)], [Cmp(left, Reg(RAX))], m);
      assert CompareCode(X64, left, right) == [Mov(Reg(RAX), right)] + [Cmp(left, Reg(RAX))];
    }
  }

  lemma CompareStep(left: nat, right: nat, m: Machine)
    requires IsInt(A64, m, Reg(left)) && IsInt(A64, m, Reg(right))
    ensures RunBlock(A64, [Cmp(Reg(left), Reg(right))], 0, m)
      == Falls(m.(flags := FlagsOfDifference(IntAt(A64, m, Reg(left)), IntAt(A64, m, Reg(right)))))
  {
    OneStep(A64, Cmp(Reg(left), Reg(right)), m);
  }

  lemma CompareLeafA64(left: Operand, right: Operand, m: Machine)
    requires Usable(A64_FILE, left) && Usable(A64_FILE, right)
    requires IsInt(A64, m, left) && IsInt(A64, m, right)
    ensures Compared(A64, m, RunBlock(A64, CompareCode(A64, left, right), 0, m), left, right)
  {
    hide RunBlock, A64Load, A64Register, FlagsOfDifference, Usable;
    LoadPair(left, right, m);
    var load := A64Load(left, 0) + A64Load(right, 1);
    var m1 := RunBlock(A64, load, 0, m).m;
    CompareStep(A64Register(left, 0), A64Register(right, 1), m1);
    BlockAppend(A64, load, [Cmp(Reg(A64Register(left, 0)), Reg(A64Register(right, 1)))], m);
  }

  lemma CompareLeaf(t: Target, left: Operand, right: Operand, m: Machine)
    requires Usable(FileOf(t), left) && Usable(FileOf(t), right)
    requires IsInt(t, m, left) && IsInt(t, m, right)
    ensures Compared(t, m, RunBlock(t, CompareCode(t, left, right), 0, m), left, right)
  {
    match t
    case X64 => CompareLeafX64(left, right, m);
    case A64 => CompareLeafA64(left, right, m);
  }

  lemma CompareX64(op: BinaryOp, result: Operand, right: Operand, m: Machine)
    requires IsComparison(op) && Usable(X64_FILE, result) && Usable(X64_FILE, right)
    requires IsInt(X64, m, result) && IsInt(X64, m, right)
    ensures Ends(X64, m, RunBlock(X64, X64BinaryCode(op, result, right), 0, m), result,
                 Apply(op, IntAt(X64, m, result), IntAt(X64, m, right)))
  {
    CompareLeafX64(result, right, m);
    CompareDecides(op, IntAt(X64, m, result), IntAt(X64, m, right));
    var compare := CompareCode(X64, result, right);
    var answer := [SetBool(RAX, CondOf(op))];
    var m1 := RunBlock(X64, compare, 0, m).m;
    OneStep(X64, answer[0], m1);
    BlockAppend(X64, compare, answer, m);
    OutOfRax(compare + answer, result, m, Apply(op, IntAt(X64, m, result), IntAt(X64, m, right)));
    assert X64BinaryCode(op, result, right) == compare + answer + [Mov(result, Reg(RAX))];
  }

  lemma CompareInstrs(op: BinaryOp, into: nat, left: nat, right: nat, m: Machine)
    requires IsComparison(op) && IsInt(A64, m, Reg(left)) && IsInt(A64, m, Reg(right))
    ensures Ends(A64, m, RunBlock(A64, A64Compute(op, into, left, right), 0, m), Reg(into),
                 Apply(op, IntAt(A64, m, Reg(left)), IntAt(A64, m, Reg(right))))
  {
    CompareDecides(op, IntAt(A64, m, Reg(left)), IntAt(A64, m, Reg(right)));
    var compare := Cmp(Reg(left), Reg(right));
    OneStep(A64, compare, m);
    var m1 := RunBlock(A64, [compare], 0, m).m;
    OneStep(A64, SetBool(into, CondOf(op)), m1);
    BlockAppend(A64, [compare], [SetBool(into, CondOf(op))], m);
    assert A64Compute(op, into, left, right) == [compare] + [SetBool(into, CondOf(op))];
  }

  lemma ComputeLeaf(op: BinaryOp, into: nat, left: nat, right: nat, m: Machine)
    requires !op.FloorDivide? && !op.FloorModulo?
    requires IsInt(A64, m, Reg(left)) && IsInt(A64, m, Reg(right))
    requires left !in {9, 10, 11} && right !in {9, 10, 11}
    ensures Ends(A64, m, RunBlock(A64, A64Compute(op, into, left, right), 0, m), Reg(into),
                 Apply(op, IntAt(A64, m, Reg(left)), IntAt(A64, m, Reg(right))))
  {
    match op
    case Add => AddInstr(A64, Reg(into), Reg(left), Reg(right), m);
    case Subtract => SubInstr(A64, Reg(into), Reg(left), Reg(right), m);
    case Multiply => MulInstrs(into, left, right, m);
    case _ => CompareInstrs(op, into, left, right, m);
  }

  lemma LoadedWords(left: Operand, right: Operand, m: Machine)
    requires Usable(A64_FILE, left) && Usable(A64_FILE, right) && IsInt(A64, m, left) && IsInt(A64, m, right)
    ensures RunBlock(A64, A64Load(left, 0) + A64Load(right, 1), 0, m).Falls?
    ensures var m' := RunBlock(A64, A64Load(left, 0) + A64Load(right, 1), 0, m).m;
      var l, r := Reg(A64Register(left, 0)), Reg(A64Register(right, 1));
      && IsInt(A64, m', l) && IntAt(A64, m', l) == IntAt(A64, m, left)
      && IsInt(A64, m', r) && IntAt(A64, m', r) == IntAt(A64, m, right)
      && Only(A64, m, m', Reg(0))
  {
    hide RunBlock, A64Load;
    LoadPair(left, right, m);
  }

  lemma ArithmeticForm(op: BinaryOp, result: Operand, right: Operand)
    requires !op.FloorDivide? && !op.FloorModulo? && Usable(A64_FILE, result) && Usable(A64_FILE, right)
    ensures A64Register(result, 0) !in {9, 10, 11} && A64Register(right, 1) !in {9, 10, 11}
    ensures var load, into := A64Load(result, 0) + A64Load(right, 1), A64Register(result, 0);
      A64BinaryCode(op, result, right) == load + A64Compute(op, into, into, A64Register(right, 1)) + A64Store(into, result)
  {
    hide A64Load, A64Compute;
  }

  lemma ArithmeticA64(op: BinaryOp, result: Operand, right: Operand, m: Machine)
    requires !op.FloorDivide? && !op.FloorModulo?
    requires Usable(A64_FILE, result) && Usable(A64_FILE, right)
    requires IsInt(A64, m, result) && IsInt(A64, m, right)
    ensures Ends(A64, m, RunBlock(A64, A64BinaryCode(op, result, right), 0, m), result,
                 Apply(op, IntAt(A64, m, result), IntAt(A64, m, right)))
  {
    LoadedWords(result, right, m);
    ArithmeticForm(op, result, right);
    hide RunBlock, A64Load, Apply, A64Compute, Ends, Only, IntAt, IsInt, A64BinaryCode, Usable, A64Register;
    var load := A64Load(result, 0) + A64Load(right, 1);
    var into := A64Register(result, 0);
    ComputeLeaf(op, into, into, A64Register(right, 1), RunBlock(A64, load, 0, m).m);
    Finished(load, A64Compute(op, into, into, A64Register(right, 1)), into, result, m,
             Apply(op, IntAt(A64, m, result), IntAt(A64, m, right)));
  }

  // ----- division -----

  /** What the guards before the divide instruction decide. */
  lemma DivisionCases(op: BinaryOp, a: Int64, b: Int64)
    requires op.FloorDivide? || op.FloorModulo?
    ensures b == 0 ==> Apply(op, a, b) == Fails(DivideZero(op))
    ensures b == -1 && op.FloorModulo? ==> Apply(op, a, b) == Exactly(0)
    ensures b == -1 && op.FloorDivide? ==> Apply(op, a, b) == Checked(0 - a, FloorDivideOverflow)
    ensures b != 0 && b != -1 ==> Fits(TruncDiv(a, b)) && Fits(TruncMod(a, b)) && Fits(FloorDiv(a, b)) && Fits(FloorMod(a, b))
    ensures b != 0 && b != -1 ==>
      var q, r := TruncDiv(a, b), TruncMod(a, b);
      Apply(op, a, b) ==
        if r == 0 || (r < 0 <==> b < 0) then Exactly(if op.FloorModulo? then r else q)
        else Exactly(if op.FloorModulo? then r + b else q - 1)
  {
    if b == -1 {
      FloorByMinusOne(a);
    } else if b != 0 {
      QuotientBound(a, b);
      TruncRemainderFits(a, b);
      RemainderFits(a, b);
      CorrectionFloors(a, b);
    }
  }

  /** rax and rcx hold the operands of a division and nothing live has moved. */
  ghost predicate Dividing(t: Target, m: Machine, m1: Machine, left: nat, right: nat, a: Int64, b: Int64) {
    Get(m1.regs, left) == Int(a) && Get(m1.regs, right) == Int(b) && Only(t, m, m1, Reg(0))
  }

  /** The sixteen instructions of an x86-64 division, one by one. */
  ghost predicate X64Shape(op: BinaryOp, result: Operand, divisor: Operand, code: seq<Instr>) {
    && |code| == 16
    && code[0] == Mov(Reg(RCX), divisor) && code[1] == Mov(Reg(RAX), result) && code[2] == Test(RCX)
    && code[3] == TrapIf(IfEqual, DivideZero(op)) && code[4] == CmpMinusOne(RCX)
    && (if op.FloorModulo? then
          && code[5] == Jcc(IfNotEqual, 2) && code[6] == Zero(RAX) && code[7] == Jmp(8)
          && code[8] == Cqo && code[9] == Idiv(RCX) && code[10] == Mov(Reg(RAX), Reg(RDX))
          && code[15] == AddFlags(Reg(RAX), Reg(RAX), Reg(RCX))
        else
          && code[5] == Jcc(IfNotEqual, 3) && code[6] == NegFlags(Reg(RAX), Reg(RAX))
          && code[7] == TrapIf(IfOverflow, FloorDivideOverflow) && code[8] == Jmp(7)
          && code[9] == Cqo && code[10] == Idiv(RCX)
          && code[15] == Decrement(RAX))
    && code[11] == Test(RDX) && code[12] == Jcc(IfEqual, 3)
    && code[13] == XorFlags(RDX, RCX) && code[14] == Jcc(IfNotSign, 1)
  }

  lemma X64HasShape(op: BinaryOp, result: Operand, divisor: Operand)
    ensures X64Shape(op, result, divisor, X64DivideCode(op, result, divisor))
  {
    if op.FloorModulo? { X64ModuloHasShape(op, result, divisor); } else { X64FloorHasShape(op, result, divisor); }
  }

  lemma X64ModuloHasShape(op: BinaryOp, result: Operand, divisor: Operand)
    requires op.FloorModulo?
    ensures X64Shape(op, result, divisor, X64DivideCode(op, result, divisor))
  {
    hide DivideZero;
  }

  lemma X64FloorHasShape(op: BinaryOp, result: Operand, divisor: Operand)
    requires !op.FloorModulo?
    ensures X64Shape(op, result, divisor, X64DivideCode(op, result, divisor))
  {
    hide DivideZero;
  }

  lemma X64DivideOpen(op: BinaryOp, result: Operand, divisor: Operand, code: seq<Instr>, m: Machine, a: Int64, b: Int64)
    returns (m1: Machine)
    requires |code| == 16 && code[0] == Mov(Reg(RCX), divisor) && code[1] == Mov(Reg(RAX), result)
    requires code[2] == Test(RCX) && code[3] == TrapIf(IfEqual, DivideZero(op)) && code[4] == CmpMinusOne(RCX)
    requires Usable(X64_FILE, result) && Usable(X64_FILE, divisor)
    requires Read(X64, m, result) == Int(a) && Read(X64, m, divisor) == Int(b)
    ensures Dividing(X64, m, m1, RAX, RCX, a, b)
    ensures b == 0 ==> RunBlock(X64, code, 0, m) == Stops(DivideZero(op), m.out)
    ensures b != 0 ==> RunBlock(X64, code, 0, m) == RunBlock(X64, code, 5, m1) && (m1.flags.zero <==> b == -1)
  {
    hide ExecLocal, RunBlock, IsAllocatable;
    X64Temporaries();
    MovStep(X64, code, 0, m);
    var ma := m.(regs := m.regs[RCX := Int(b)]);
    MovStep(X64, code, 1, ma);
    var mb := ma.(regs := ma.regs[RAX := Int(a)]);
    m1 := mb.(flags := FlagsOf(b));
    X64DivideGuards(op, code, mb, b);
    if b != 0 {
      SameDifference(b, -1);
      m1 := m1.(flags := FlagsOfDifference(b, -1));
    }
  }

  lemma X64Temporaries()
    ensures !IsAllocatable(X64_FILE, RAX) && !IsAllocatable(X64_FILE, RCX) && !IsAllocatable(X64_FILE, RDX)
  {}

  lemma X64DivideGuards(op: BinaryOp, code: seq<Instr>, m: Machine, b: Int64)
    requires |code| == 16 && code[2] == Test(RCX) && code[3] == TrapIf(IfEqual, DivideZero(op))
    requires code[4] == CmpMinusOne(RCX) && Get(m.regs, RCX) == Int(b)
    ensures b == 0 ==> RunBlock(X64, code, 2, m) == Stops(DivideZero(op), m.out)
    ensures b != 0 ==> RunBlock(X64, code, 2, m) == RunBlock(X64, code, 5, m.(flags := FlagsOfDifference(b, -1)))
  {
    var m1 := m.(flags := FlagsOf(b));
    PlainStep(X64, code, 2, m, m1);
    if b != 0 {
      var m2 := m1.(flags := FlagsOfDifference(b, -1));
      PlainStep(X64, code, 3, m1, m1);
      PlainStep(X64, code, 4, m1, m2);
    }
  }

  lemma X64DivideByMinusOne(code: seq<Instr>, m: Machine, a: Int64)
    requires |code| == 16 && code[5] == Jcc(IfNotEqual, 3) && code[6] == NegFlags(Reg(RAX), Reg(RAX))
    requires code[7] == TrapIf(IfOverflow, FloorDivideOverflow) && code[8] == Jmp(7)
    requires Get(m.regs, RAX) == Int(a) && m.flags.zero
    ensures Ends(X64, m, RunBlock(X64, code, 5, m), Reg(RAX), Checked(0 - a, FloorDivideOverflow))
  {
    hide ExecLocal, RunBlock, Wrap;
    var n := 0 - a;
    var m1 := m.(regs := m.regs[RAX := Int(Wrap(n))], flags := Flags(Wrap(n) == 0, Wrap(n) < 0, !Fits(n)));
    BranchStep(X64, code, 5, m);
    NegStep(X64, code, 6, m, RAX, a);
    TrapStep(X64, code, 7, m1, FloorDivideOverflow);
    JumpStep(X64, code, 8, m1, 7);
    EndStep(X64, code, m1);
    if Fits(n) { WrapKeeps(n); }
  }

  lemma X64ModuloByMinusOne(code: seq<Instr>, m: Machine)
    requires |code| == 16 && code[5] == Jcc(IfNotEqual, 2) && code[6] == Zero(RAX) && code[7] == Jmp(8)
    requires m.flags.zero
    ensures Ends(X64, m, RunBlock(X64, code, 5, m), Reg(RAX), Exactly(0))
  {
    var m1 := m.(regs := m.regs[RAX := Int(0)]);
    assert ExecLocal(X64, code[6], m) == On(m1);
    assert RunBlock(X64, code, 5, m) == RunBlock(X64, code, 6, m);
    assert RunBlock(X64, code, 6, m) == RunBlock(X64, code, 7, m1);
    assert RunBlock(X64, code, 7, m1) == RunBlock(X64, code, 16, m1);
    assert RunBlock(X64, code, 16, m1) == Falls(m1);
  }

  /** `cqo; idiv rcx`: the truncated quotient in rax, the remainder in rdx. */
  lemma IdivSteps(code: seq<Instr>, g: nat, m: Machine, a: Int64, b: Int64) returns (m1: Machine)
    requires g + 2 <= |code| && code[g] == Cqo && code[g + 1] == Idiv(RCX)
    requires Get(m.regs, RAX) == Int(a) && Get(m.regs, RCX) == Int(b) && b != 0
    requires Fits(TruncDiv(a, b)) && Fits(TruncMod(a, b))
    ensures RunBlock(X64, code, g, m) == RunBlock(X64, code, g + 2, m1)
    ensures Get(m1.regs, RAX) == Int(TruncDiv(a, b)) && Get(m1.regs, RDX) == Int(TruncMod(a, b))
    ensures Get(m1.regs, RCX) == Int(b) && Only(X64, m, m1, Reg(RAX))
  {
    var q, r: Int64 := TruncDiv(a, b), TruncMod(a, b);
    var ma := m.(regs := m.regs[RDX := Int(if a < 0 then -1 else 0)]);
    m1 := ma.(regs := ma.regs[RAX := Int(q)][RDX := Int(r)]);
    IdivStep(ma, a, b, q, r);
    assert ExecLocal(X64, code[g], m) == On(ma);
    assert RunBlock(X64, code, g, m) == RunBlock(X64, code, g + 1, ma);
  }

  lemma IdivStep(m: Machine, a: Int64, b: Int64, q: Int64, r: Int64)
    requires Get(m.regs, RAX) == Int(a) && Get(m.regs, RCX) == Int(b) && b != 0
    requires Get(m.regs, RDX) == Int(if a < 0 then -1 else 0)
    requires q == TruncDiv(a, b) && r == TruncMod(a, b)
    ensures ExecLocal(X64, Idiv(RCX), m) == On(m.(regs := m.regs[RAX := Int(q)][RDX := Int(r)]))
  {}

  /** The correction after the divide: `test rdx; je; xor rdx, rcx; jns; adjust`. */
  lemma X64Correct(code: seq<Instr>, g: nat, m: Machine, r: Int64, b: Int64)
    requires |code| == g + 5 && code[g] == Test(RDX) && code[g + 1] == Jcc(IfEqual, 3)
    requires code[g + 2] == XorFlags(RDX, RCX) && code[g + 3] == Jcc(IfNotSign, 1)
    requires Get(m.regs, RDX) == Int(r) && Get(m.regs, RCX) == Int(b)
    ensures var m1 := m.(flags := FlagsOf(r));
      var x := XorSign(r, b);
      var m2 := m1.(regs := m1.regs[RDX := Int(x)], flags := FlagsOf(x));
      RunBlock(X64, code, g, m) ==
        if r == 0 then Falls(m1) else if (r < 0 <==> b < 0) then Falls(m2) else RunBlock(X64, code, g + 4, m2)
  {
    var m1 := m.(flags := FlagsOf(r));
    var x := XorSign(r, b);
    var m2 := m1.(regs := m1.regs[RDX := Int(x)], flags := FlagsOf(x));
    TestAndXor(m, r, b);
    FlagsTell(r);
    FlagsTell(x);
    hide ExecLocal, RunBlock, XorSign, FlagsOf;
    PlainStep(X64, code, g, m, m1);
    BranchStep(X64, code, g + 1, m1);
    EndStep(X64, code, m1);
    if r != 0 {
      PlainStep(X64, code, g + 2, m1, m2);
      BranchStep(X64, code, g + 3, m2);
      EndStep(X64, code, m2);
      XorSignTells(r, b);
    }
  }

  lemma FlagsTell(n: Int64)
    ensures Holds(IfEqual, FlagsOf(n)) <==> n == 0
    ensures Holds(IfNotSign, FlagsOf(n)) <==> n >= 0
  {}

  lemma TestAndXor(m: Machine, r: Int64, b: Int64)
    requires Get(m.regs, RDX) == Int(r) && Get(m.regs, RCX) == Int(b)
    ensures ExecLocal(X64, Test(RDX), m) == On(m.(flags := FlagsOf(r)))
    ensures var m1 := m.(flags := FlagsOf(r));
      ExecLocal(X64, XorFlags(RDX, RCX), m1) ==
        On(m1.(regs := m1.regs[RDX := Int(XorSign(r, b))], flags := FlagsOf(XorSign(r, b))))
  {}

  lemma XorSignTells(r: Int64, b: Int64)
    requires r != 0
    ensures XorSign(r, b) < 0 <==> !(r < 0 <==> b < 0)
  {}

  lemma X64FloorGeneral(code: seq<Instr>, m: Machine, a: Int64, b: Int64)
    requires |code| == 16 && code[5] == Jcc(IfNotEqual, 3) && code[9] == Cqo && code[10] == Idiv(RCX)
    requires code[11] == Test(RDX) && code[12] == Jcc(IfEqual, 3)
    requires code[13] == XorFlags(RDX, RCX) && code[14] == Jcc(IfNotSign, 1) && code[15] == Decrement(RAX)
    requires Get(m.regs, RAX) == Int(a) && Get(m.regs, RCX) == Int(b) && !m.flags.zero && b != 0 && b != -1
    ensures Ends(X64, m, RunBlock(X64, code, 5, m), Reg(RAX), Apply(FloorDivide, a, b))
  {
    hide TruncDiv, TruncMod, FloorDiv, FloorMod, Wrap, Apply, ExecLocal, RunBlock, XorSign;
    DivisionCases(FloorDivide, a, b);
    var q, r: Int64 := TruncDiv(a, b), TruncMod(a, b);
    BranchStep(X64, code, 5, m);
    var m1 := IdivSteps(code, 9, m, a, b);
    X64Correct(code, 11, m1, r, b);
    if r != 0 && !(r < 0 <==> b < 0) {
      var x := XorSign(r, b);
      X64Adjust(FloorDivide, code, m1.(regs := m1.regs[RDX := Int(x)], flags := FlagsOf(x)), q, b);
    }
  }

  lemma X64ModuloGeneral(code: seq<Instr>, m: Machine, a: Int64, b: Int64)
    requires |code| == 16 && code[5] == Jcc(IfNotEqual, 2) && code[8] == Cqo && code[9] == Idiv(RCX)
    requires code[10] == Mov(Reg(RAX), Reg(RDX)) && code[11] == Test(RDX) && code[12] == Jcc(IfEqual, 3)
    requires code[13] == XorFlags(RDX, RCX) && code[14] == Jcc(IfNotSign, 1)
    requires code[15] == AddFlags(Reg(RAX), Reg(RAX), Reg(RCX))
    requires Get(m.regs, RAX) == Int(a) && Get(m.regs, RCX) == Int(b) && !m.flags.zero && b != 0 && b != -1
    ensures Ends(X64, m, RunBlock(X64, code, 5, m), Reg(RAX), Apply(FloorModulo, a, b))
  {
    hide TruncDiv, TruncMod, FloorDiv, FloorMod, Wrap, Apply, ExecLocal, RunBlock, XorSign, FlagsOf;
    DivisionCases(FloorModulo, a, b);
    var r: Int64 := TruncMod(a, b);
    BranchStep(X64, code, 5, m);
    var m1 := IdivSteps(code, 8, m, a, b);
    var m2 := m1.(regs := m1.regs[RAX := Int(r)]);
    MovStep(X64, code, 10, m1);
    X64Correct(code, 11, m2, r, b);
    if r != 0 && !(r < 0 <==> b < 0) {
      var x := XorSign(r, b);
      X64Adjust(FloorModulo, code, m2.(regs := m2.regs[RDX := Int(x)], flags := FlagsOf(x)), r, b);
    }
  }

  /** The final step of the correction: one divisor more, or one quotient less. */
  lemma X64Adjust(op: BinaryOp, code: seq<Instr>, m: Machine, answer: Int64, b: Int64)
    requires |code| == 16
    requires code[15] == if op.FloorModulo? then AddFlags(Reg(RAX), Reg(RAX), Reg(RCX)) else Decrement(RAX)
    requires Get(m.regs, RAX) == Int(answer) && Get(m.regs, RCX) == Int(b)
    requires Fits(if op.FloorModulo? then answer + b else answer - 1)
    ensures Ends(X64, m, RunBlock(X64, code, 15, m), Reg(RAX),
                 Exactly(if op.FloorModulo? then answer + b else answer - 1))
  {
    var n: Int64 := if op.FloorModulo? then answer + b else answer - 1;
    var m1 := ExecLocal(X64, code[15], m).m;
    assert RunBlock(X64, code, 15, m) == RunBlock(X64, code, 16, m1);
    assert RunBlock(X64, code, 16, m1) == Falls(m1);
  }

  lemma X64DivideCore(op: BinaryOp, result: Operand, divisor: Operand, code: seq<Instr>, m: Machine, a: Int64, b: Int64)
    requires (op.FloorDivide? || op.FloorModulo?) && X64Shape(op, result, divisor, code)
    requires Usable(X64_FILE, result) && Usable(X64_FILE, divisor)
    requires Read(X64, m, result) == Int(a) && Read(X64, m, divisor) == Int(b)
    ensures Ends(X64, m, RunBlock(X64, code, 0, m), Reg(RAX), Apply(op, a, b))
  {
    var m1 := X64DivideOpen(op, result, divisor, code, m, a, b);
    if b != 0 {
      if b == -1 {
        DivisionCases(op, a, b);
        if op.FloorModulo? {
          X64ModuloByMinusOne(code, m1);
        } else {
          X64DivideByMinusOne(code, m1, a);
        }
      } else if op.FloorModulo? {
        X64ModuloGeneral(code, m1, a, b);
      } else {
        X64FloorGeneral(code, m1, a, b);
      }
      EndsFrom(X64, m, m1, RunBlock(X64, code, 5, m1), Reg(RAX), Apply(op, a, b));
    }
  }

  lemma X64DivideAnswer(op: BinaryOp, result: Operand, divisor: Operand, m: Machine)
    requires op.FloorDivide? || op.FloorModulo?
    requires Usable(X64_FILE, result) && Usable(X64_FILE, divisor)
    requires IsInt(X64, m, result) && IsInt(X64, m, divisor)
    ensures Ends(X64, m, RunBlock(X64, X64DivideCode(op, result, divisor), 0, m), Reg(RAX),
                 Apply(op, IntAt(X64, m, result), IntAt(X64, m, divisor)))
  {
    hide Ends, RunBlock, Apply, X64DivideCode, Usable;
    X64HasShape(op, result, divisor);
    X64DivideCore(op, result, divisor, X64DivideCode(op, result, divisor), m,
                  IntAt(X64, m, result), IntAt(X64, m, divisor));
  }

  lemma X64DivideMove(op: BinaryOp, result: Operand, divisor: Operand)
    requires (op.FloorDivide? || op.FloorModulo?) && Usable(X64_FILE, result)
    ensures X64BinaryCode(op, result, divisor) == X64DivideCode(op, result, divisor) + [Mov(result, Reg(RAX))]
  {
    hide X64DivideCode;
  }

  lemma DivideX64(op: BinaryOp, result: Operand, divisor: Operand, m: Machine)
    requires op.FloorDivide? || op.FloorModulo?
    requires Usable(X64_FILE, result) && Usable(X64_FILE, divisor)
    requires IsInt(X64, m, result) && IsInt(X64, m, divisor)
    ensures Ends(X64, m, RunBlock(X64, X64BinaryCode(op, result, divisor), 0, m), result,
                 Apply(op, IntAt(X64, m, result), IntAt(X64, m, divisor)))
  {
    hide *;
    X64DivideAnswer(op, result, divisor, m);
    X64DivideMove(op, result, divisor);
    OutOfRax(X64DivideCode(op, result, divisor), result, m, Apply(op, IntAt(X64, m, result), IntAt(X64, m, divisor)));
  }

  // ----- AArch64 division -----

  lemma A64Temporaries()
    ensures !IsAllocatable(A64_FILE, 0) && !IsAllocatable(A64_FILE, 1) && !IsAllocatable(A64_FILE, 9)
    ensures !IsAllocatable(A64_FILE, 10) && !IsAllocatable(A64_FILE, 11)
  {}

  lemma A64DivideOpen(op: BinaryOp, result: Operand, divisor: Operand, code: seq<Instr>, m: Machine, a: Int64, b: Int64)
    returns (m1: Machine)
    requires |code| >= 4 && code[0] == Mov(Reg(0), result) && code[1] == Mov(Reg(1), divisor)
    requires code[2] == TrapIfZero(1, DivideZero(op)) && code[3] == CmpMinusOne(1)
    requires Usable(A64_FILE, result) && Usable(A64_FILE, divisor)
    requires Read(A64, m, result) == Int(a) && Read(A64, m, divisor) == Int(b)
    ensures Dividing(A64, m, m1, 0, 1, a, b)
    ensures b == 0 ==> RunBlock(A64, code, 0, m) == Stops(DivideZero(op), m.out)
    ensures b != 0 ==> RunBlock(A64, code, 0, m) == RunBlock(A64, code, 4, m1) && (m1.flags.zero <==> b == -1)
  {
    hide ExecLocal, RunBlock, IsAllocatable;
    A64Temporaries();
    MovStep(A64, code, 0, m);
    var ma := m.(regs := m.regs[0 := Int(a)]);
    MovStep(A64, code, 1, ma);
    m1 := ma.(regs := ma.regs[1 := Int(b)]);
    A64DivideGuards(op, code, m1, b);
    if b != 0 {
      SameDifference(b, -1);
      m1 := m1.(flags := FlagsOfDifference(b, -1));
    }
  }

  lemma A64DivideGuards(op: BinaryOp, code: seq<Instr>, m: Machine, b: Int64)
    requires |code| >= 4 && code[2] == TrapIfZero(1, DivideZero(op)) && code[3] == CmpMinusOne(1)
    requires Get(m.regs, 1) == Int(b)
    ensures b == 0 ==> RunBlock(A64, code, 2, m) == Stops(DivideZero(op), m.out)
    ensures b != 0 ==> RunBlock(A64, code, 2, m) == RunBlock(A64, code, 4, m.(flags := FlagsOfDifference(b, -1)))
  {
    if b != 0 {
      PlainStep(A64, code, 2, m, m);
      PlainStep(A64, code, 3, m, m.(flags := FlagsOfDifference(b, -1)));
    }
  }

  lemma A64FloorByMinusOne(code: seq<Instr>, m: Machine, a: Int64)
    requires |code| == 15 && code[4] == Jcc(IfNotEqual, 3) && code[5] == NegFlags(Reg(0), Reg(0))
    requires code[6] == TrapIf(IfOverflow, FloorDivideOverflow) && code[7] == Jmp(7)
    requires Get(m.regs, 0) == Int(a) && m.flags.zero
    ensures Ends(A64, m, RunBlock(A64, code, 4, m), Reg(0), Checked(0 - a, FloorDivideOverflow))
  {
    hide ExecLocal, RunBlock, Wrap;
    var n := 0 - a;
    var m1 := m.(regs := m.regs[0 := Int(Wrap(n))], flags := Flags(Wrap(n) == 0, Wrap(n) < 0, !Fits(n)));
    BranchStep(A64, code, 4, m);
    NegStep(A64, code, 5, m, 0, a);
    TrapStep(A64, code, 6, m1, FloorDivideOverflow);
    JumpStep(A64, code, 7, m1, 7);
    EndStep(A64, code, m1);
    if Fits(n) { WrapKeeps(n); }
  }

  lemma WrapKeeps(n: int)
    requires Fits(n)
    ensures Wrap(n) == n
  {}

  lemma A64ModuloByMinusOne(code: seq<Instr>, m: Machine)
    requires |code| == 13 && code[4] == Jcc(IfNotEqual, 2) && code[5] == Zero(0) && code[6] == Jmp(6)
    requires m.flags.zero
    ensures Ends(A64, m, RunBlock(A64, code, 4, m), Reg(0), Exactly(0))
  {
    var m1 := m.(regs := m.regs[0 := Int(0)]);
    BranchStep(A64, code, 4, m);
    PlainStep(A64, code, 5, m, m1);
    assert RunBlock(A64, code, 6, m1) == RunBlock(A64, code, 13, m1);
    assert RunBlock(A64, code, 13, m1) == Falls(m1);
  }

  /** `sdiv x9, x0, x1; msub rd, x9, x1, x0`: the truncated quotient and its remainder. */
  lemma SdivSteps(code: seq<Instr>, g: nat, m: Machine, rd: nat, a: Int64, b: Int64) returns (m1: Machine)
    requires g + 2 <= |code| && code[g] == Sdiv(9, 0, 1) && code[g + 1] == Msub(rd, 9, 1, 0)
    requires rd == 0 || rd == 10
    requires Get(m.regs, 0) == Int(a) && Get(m.regs, 1) == Int(b) && b != 0
    requires Fits(TruncDiv(a, b)) && Fits(TruncMod(a, b))
    ensures RunBlock(A64, code, g, m) == RunBlock(A64, code, g + 2, m1)
    ensures m1 == m.(regs := m.regs[9 := Int(TruncDiv(a, b))][rd := Int(TruncMod(a, b))])
  {
    var q, r: Int64 := TruncDiv(a, b), TruncMod(a, b);
    var ma := m.(regs := m.regs[9 := Int(q)]);
    m1 := ma.(regs := ma.regs[rd := Int(r)]);
    SdivStep(m, a, b, q);
    PlainStep(A64, code, g, m, ma);
    MsubStep(ma, rd, a, b, q, r);
    PlainStep(A64, code, g + 1, ma, m1);
  }

  lemma SdivStep(m: Machine, a: Int64, b: Int64, q: Int64)
    requires Get(m.regs, 0) == Int(a) && Get(m.regs, 1) == Int(b) && b != 0 && q == TruncDiv(a, b)
    ensures ExecLocal(A64, Sdiv(9, 0, 1), m) == On(m.(regs := m.regs[9 := Int(q)]))
  {
    hide TruncDiv;
  }

  lemma MsubStep(m: Machine, rd: nat, a: Int64, b: Int64, q: Int64, r: Int64)
    requires Get(m.regs, 0) == Int(a) && Get(m.regs, 1) == Int(b) && Get(m.regs, 9) == Int(q)
    requires b != 0 && q == TruncDiv(a, b) && r == TruncMod(a, b)
    ensures ExecLocal(A64, Msub(rd, 9, 1, 0), m) == On(m.(regs := m.regs[rd := Int(r)]))
  {
    assert q * b == b * q;
  }

  /** The correction after the divide: `cbz; eor; tbz`, with the remainder in rr. */
  lemma A64Correct(code: seq<Instr>, g: nat, rr: nat, m: Machine, r: Int64, b: Int64)
    requires |code| == g + 4 && code[g] == Cbz(rr, 3) && code[g + 1] == Eor(11, rr, 1) && code[g + 2] == TbzSign(11, 1)
    requires Get(m.regs, rr) == Int(r) && Get(m.regs, 1) == Int(b)
    ensures var m1 := m.(regs := m.regs[11 := Int(XorSign(r, b))]);
      RunBlock(A64, code, g, m) ==
        if r == 0 then Falls(m) else if (r < 0 <==> b < 0) then Falls(m1) else RunBlock(A64, code, g + 3, m1)
  {
    var m1 := m.(regs := m.regs[11 := Int(XorSign(r, b))]);
    SkipStep(code, g, m, rr, r, 3);
    EorExec(m, rr, r, b);
    hide ExecLocal, RunBlock, XorSign;
    EndStep(A64, code, m);
    if r != 0 {
      PlainStep(A64, code, g + 1, m, m1);
      SignStep(code, g + 2, m1, 11, XorSign(r, b), 1);
      EndStep(A64, code, m1);
      XorSignTells(r, b);
    }
  }

  lemma SkipStep(code: seq<Instr>, i: nat, m: Machine, rr: nat, n: Int64, disp: nat)
    requires i < |code| && code[i] == Cbz(rr, disp) && Get(m.regs, rr) == Int(n)
    ensures RunBlock(A64, code, i, m) == RunBlock(A64, code, if n == 0 then i + 1 + disp else i + 1, m)
  {}

  lemma SignStep(code: seq<Instr>, i: nat, m: Machine, rr: nat, n: Int64, disp: nat)
    requires i < |code| && code[i] == TbzSign(rr, disp) && Get(m.regs, rr) == Int(n)
    ensures RunBlock(A64, code, i, m) == RunBlock(A64, code, if n < 0 then i + 1 else i + 1 + disp, m)
  {}

  lemma EorExec(m: Machine, rr: nat, r: Int64, b: Int64)
    requires Get(m.regs, rr) == Int(r) && Get(m.regs, 1) == Int(b)
    ensures ExecLocal(A64, Eor(11, rr, 1), m) == On(m.(regs := m.regs[11 := Int(XorSign(r, b))]))
  {}

  lemma A64FloorGeneral(code: seq<Instr>, m: Machine, a: Int64, b: Int64)
    requires |code| == 15 && code[4] == Jcc(IfNotEqual, 3)
    requires code[8] == Sdiv(9, 0, 1) && code[9] == Msub(10, 9, 1, 0) && code[10] == Mov(Reg(0), Reg(9))
    requires code[11] == Cbz(10, 3) && code[12] == Eor(11, 10, 1) && code[13] == TbzSign(11, 1) && code[14] == Decrement(0)
    requires Get(m.regs, 0) == Int(a) && Get(m.regs, 1) == Int(b) && !m.flags.zero && b != 0 && b != -1
    ensures Ends(A64, m, RunBlock(A64, code, 4, m), Reg(0), Apply(FloorDivide, a, b))
  {
    hide TruncDiv, TruncMod, FloorDiv, FloorMod, Wrap, Apply, ExecLocal, IsAllocatable, RunBlock;
    A64Temporaries();
    DivisionCases(FloorDivide, a, b);
    var q, r: Int64 := TruncDiv(a, b), TruncMod(a, b);
    BranchStep(A64, code, 4, m);
    var m1 := SdivSteps(code, 8, m, 10, a, b);
    MovStep(A64, code, 10, m1);
    var m2 := m1.(regs := m1.regs[0 := Int(q)]);
    A64Correct(code, 11, 10, m2, r, b);
    if r != 0 && !(r < 0 <==> b < 0) {
      var m3 := m2.(regs := m2.regs[11 := Int(XorSign(r, b))]);
      LastDecrement(code, 14, m3, q);
    }
  }

  lemma LastDecrement(code: seq<Instr>, i: nat, m: Machine, n: Int64)
    requires |code| == i + 1 && code[i] == Decrement(0) && Get(m.regs, 0) == Int(n) && Fits(n - 1)
    ensures RunBlock(A64, code, i, m) == Falls(m.(regs := m.regs[0 := Int(n - 1)]))
  {
    var m1 := m.(regs := m.regs[0 := Int(n - 1)]);
    PlainStep(A64, code, i, m, m1);
    assert RunBlock(A64, code, i + 1, m1) == Falls(m1);
  }

  lemma A64ModuloGeneral(code: seq<Instr>, m: Machine, a: Int64, b: Int64)
    requires |code| == 13 && code[4] == Jcc(IfNotEqual, 2)
    requires code[7] == Sdiv(9, 0, 1) && code[8] == Msub(0, 9, 1, 0) && code[9] == Cbz(0, 3)
    requires code[10] == Eor(11, 0, 1) && code[11] == TbzSign(11, 1) && code[12] == AddPlain(0, 0, 1)
    requires Get(m.regs, 0) == Int(a) && Get(m.regs, 1) == Int(b) && !m.flags.zero && b != 0 && b != -1
    ensures Ends(A64, m, RunBlock(A64, code, 4, m), Reg(0), Apply(FloorModulo, a, b))
  {
    hide TruncDiv, TruncMod, FloorDiv, FloorMod, Wrap, Apply, ExecLocal, IsAllocatable, RunBlock;
    A64Temporaries();
    DivisionCases(FloorModulo, a, b);
    var r: Int64 := TruncMod(a, b);
    BranchStep(A64, code, 4, m);
    var m1 := SdivSteps(code, 7, m, 0, a, b);
    A64Correct(code, 9, 0, m1, r, b);
    if r != 0 && !(r < 0 <==> b < 0) {
      var m3 := m1.(regs := m1.regs[11 := Int(XorSign(r, b))]);
      LastAdd(code, 12, m3, r, b);
    }
  }

  lemma LastAdd(code: seq<Instr>, i: nat, m: Machine, n: Int64, b: Int64)
    requires |code| == i + 1 && code[i] == AddPlain(0, 0, 1) && Fits(n + b)
    requires Get(m.regs, 0) == Int(n) && Get(m.regs, 1) == Int(b)
    ensures RunBlock(A64, code, i, m) == Falls(m.(regs := m.regs[0 := Int(n + b)]))
  {
    var m1 := m.(regs := m.regs[0 := Int(n + b)]);
    PlainStep(A64, code, i, m, m1);
    assert RunBlock(A64, code, i + 1, m1) == Falls(m1);
  }

  /** The instructions of an AArch64 division, one by one. */
  ghost predicate A64Shape(op: BinaryOp, result: Operand, divisor: Operand, code: seq<Instr>) {
    && |code| == (if op.FloorModulo? then 13 else 15)
    && code[0] == Mov(Reg(0), result) && code[1] == Mov(Reg(1), divisor)
    && code[2] == TrapIfZero(1, DivideZero(op)) && code[3] == CmpMinusOne(1)
    && (if op.FloorModulo? then A64ModuloShape(code) else A64FloorShape(code))
  }

  ghost predicate A64FloorShape(code: seq<Instr>)
    requires |code| == 15
  {
    && code[4] == Jcc(IfNotEqual, 3) && code[5] == NegFlags(Reg(0), Reg(0))
    && code[6] == TrapIf(IfOverflow, FloorDivideOverflow) && code[7] == Jmp(7)
    && code[8] == Sdiv(9, 0, 1) && code[9] == Msub(10, 9, 1, 0) && code[10] == Mov(Reg(0), Reg(9))
    && code[11] == Cbz(10, 3) && code[12] == Eor(11, 10, 1) && code[13] == TbzSign(11, 1) && code[14] == Decrement(0)
  }

  ghost predicate A64ModuloShape(code: seq<Instr>)
    requires |code| == 13
  {
    && code[4] == Jcc(IfNotEqual, 2) && code[5] == Zero(0) && code[6] == Jmp(6)
    && code[7] == Sdiv(9, 0, 1) && code[8] == Msub(0, 9, 1, 0) && code[9] == Cbz(0, 3)
    && code[10] == Eor(11, 0, 1) && code[11] == TbzSign(11, 1) && code[12] == AddPlain(0, 0, 1)
  }

  lemma A64HasShape(op: BinaryOp, result: Operand, divisor: Operand)
    ensures A64Shape(op, result, divisor, A64DivideCode(op, result, divisor))
  {
    if op.FloorModulo? { A64ModuloHasShape(op, result, divisor); } else { A64FloorHasShape(op, result, divisor); }
  }

  lemma A64ModuloHasShape(op: BinaryOp, result: Operand, divisor: Operand)
    requires op.FloorModulo?
    ensures A64Shape(op, result, divisor, A64DivideCode(op, result, divisor))
  {
    hide DivideZero;
  }

  lemma A64FloorHasShape(op: BinaryOp, result: Operand, divisor: Operand)
    requires !op.FloorModulo?
    ensures A64Shape(op, result, divisor, A64DivideCode(op, result, divisor))
  {
    hide DivideZero;
  }

  lemma A64FloorCases(code: seq<Instr>, m: Machine, a: Int64, b: Int64)
    requires |code| == 15 && A64FloorShape(code) && b != 0 && (m.flags.zero <==> b == -1)
    requires Get(m.regs, 0) == Int(a) && Get(m.regs, 1) == Int(b)
    ensures Ends(A64, m, RunBlock(A64, code, 4, m), Reg(0), Apply(FloorDivide, a, b))
  {
    hide Ends, RunBlock, Apply;
    if b == -1 {
      DivisionCases(FloorDivide, a, b);
      A64FloorByMinusOne(code, m, a);
    } else {
      A64FloorGeneral(code, m, a, b);
    }
  }

  lemma A64ModuloCases(code: seq<Instr>, m: Machine, a: Int64, b: Int64)
    requires |code| == 13 && A64ModuloShape(code) && b != 0 && (m.flags.zero <==> b == -1)
    requires Get(m.regs, 0) == Int(a) && Get(m.regs, 1) == Int(b)
    ensures Ends(A64, m, RunBlock(A64, code, 4, m), Reg(0), Apply(FloorModulo, a, b))
  {
    hide Ends, RunBlock, Apply;
    if b == -1 {
      DivisionCases(FloorModulo, a, b);
      A64ModuloByMinusOne(code, m);
    } else {
      A64ModuloGeneral(code, m, a, b);
    }
  }

  lemma A64DivideCore(op: BinaryOp, result: Operand, divisor: Operand, code: seq<Instr>, m: Machine, a: Int64, b: Int64)
    requires (op.FloorDivide? || op.FloorModulo?) && A64Shape(op, result, divisor, code)
    requires Usable(A64_FILE, result) && Usable(A64_FILE, divisor)
    requires Read(A64, m, result) == Int(a) && Read(A64, m, divisor) == Int(b)
    ensures Ends(A64, m, RunBlock(A64, code, 0, m), Reg(0), Apply(op, a, b))
  {
    hide RunBlock, A64FloorShape, A64ModuloShape, Only, Usable;
    var m1 := A64DivideOpen(op, result, divisor, code, m, a, b);
    if b != 0 {
      if op.FloorModulo? {
        A64ModuloCases(code, m1, a, b);
      } else {
        A64FloorCases(code, m1, a, b);
      }
      EndsFrom(A64, m, m1, RunBlock(A64, code, 4, m1), Reg(0), Apply(op, a, b));
    }
  }

  lemma A64DivideMove(op: BinaryOp, result: Operand, divisor: Operand)
    requires (op.FloorDivide? || op.FloorModulo?) && Usable(A64_FILE, result)
    ensures A64BinaryCode(op, result, divisor) == A64DivideCode(op, result, divisor) + [Mov(result, Reg(0))]
  {
    hide A64DivideCode;
  }

  lemma OutOfX0(code: seq<Instr>, result: Operand, m: Machine, a: Arithmetic)
    requires Usable(A64_FILE, result)
    requires Ends(A64, m, RunBlock(A64, code, 0, m), Reg(0), a)
    ensures Ends(A64, m, RunBlock(A64, code + [Mov(result, Reg(0))], 0, m), result, a)
  {
    BlockAppend(A64, code, [Mov(result, Reg(0))], m);
    if a.Exactly? {
      var m1 := RunBlock(A64, code, 0, m).m;
      OneStep(A64, Mov(result, Reg(0)), m1);
    }
  }

  lemma DivideA64(op: BinaryOp, result: Operand, divisor: Operand, m: Machine)
    requires op.FloorDivide? || op.FloorModulo?
    requires Usable(A64_FILE, result) && Usable(A64_FILE, divisor)
    requires IsInt(A64, m, result) && IsInt(A64, m, divisor)
    ensures Ends(A64, m, RunBlock(A64, A64BinaryCode(op, result, divisor), 0, m), result,
                 Apply(op, IntAt(A64, m, result), IntAt(A64, m, divisor)))
  {
    hide Ends, RunBlock, Apply, A64DivideCode, A64BinaryCode, Usable;
    var a, b := IntAt(A64, m, result), IntAt(A64, m, divisor);
    A64HasShape(op, result, divisor);
    A64DivideCore(op, result, divisor, A64DivideCode(op, result, divisor), m, a, b);
    A64DivideMove(op, result, divisor);
    OutOfX0(A64DivideCode(op, result, divisor), result, m, Apply(op, a, b));
  }

  // ----- every binary operation, on either target -----

  /**
   The sequence emitted for a binary operator computes it: the answer in
   `result`, or the operator's own trap, and nothing else that is live moved.
   */
  lemma BinaryLeaf(t: Target, op: BinaryOp, result: Operand, right: Operand, m: Machine)
    requires Usable(FileOf(t), result) && Usable(FileOf(t), right)
    requires IsInt(t, m, result) && IsInt(t, m, right)
    ensures Ends(t, m, RunBlock(t, BinaryCode(t, op, result, right), 0, m), result,
                 Apply(op, IntAt(t, m, result), IntAt(t, m, right)))
  {
    hide Ends, RunBlock, Apply, A64BinaryCode, X64BinaryCode, Usable;
    match t
    case X64 => BinaryX64(op, result, right, m);
    case A64 =>
      if op.FloorDivide? || op.FloorModulo? {
        DivideA64(op, result, right, m);
      } else {
        ArithmeticA64(op, result, right, m);
      }
  }

  lemma BinaryX64(op: BinaryOp, result: Operand, right: Operand, m: Machine)
    requires Usable(X64_FILE, result) && Usable(X64_FILE, right)
    requires IsInt(X64, m, result) && IsInt(X64, m, right)
    ensures Ends(X64, m, RunBlock(X64, X64BinaryCode(op, result, right), 0, m), result,
                 Apply(op, IntAt(X64, m, result), IntAt(X64, m, right)))
  {
    hide Ends, RunBlock, X64BinaryCode, Usable, Checked, FloorDiv, FloorMod;
    if op.FloorDivide? || op.FloorModulo? {
      DivideX64(op, result, right, m);
    } else if IsComparison(op) {
      CompareX64(op, result, right, m);
    } else {
      match op
      case Add => AddX64(result, right, m);
      case Subtract => SubX64(result, right, m);
      case Multiply => MulX64(result, right, m);
    }
  }
}
