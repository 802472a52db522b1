/**
 Semantic preservation for whole programs, by induction over calls: expressions,
 argument lists, statements, functions, and the tail calls between them.
 */
module Correctness {
  import opened Words
  import opened Core
  import opened Pressure
  import opened Targets
  import opened Machine
  import opened Lowering
  import opened Blocks
  import opened Leaves
  import opened Frames
  import opened Preservation
  import opened Permutations

  /** The expression may be lowered at depth d under this layout. */
  ghost predicate Lowerable(image: Image, l: Layout, e: Expr, d: nat) {
    && WellFormedExpr(image.program.functions, l.frameSlots, e)
    && (image.target.A64? ==> SyscallFree(e))
    && FitsExpr(l, e, d)
  }

  ghost predicate LowerableFrom(image: Image, l: Layout, e: Expr, w: nat, d: nat) {
    && WellFormedExpr(image.program.functions, l.frameSlots, e)
    && (image.target.A64? ==> SyscallFree(e))
    && FitsFrom(l, e, w, d)
  }

  ghost predicate LayoutOk(image: Image, l: Layout) {
    Sound(l) && l.file == FileOf(image.target)
  }

  ghost predicate Ready(image: Image, l: Layout, env: Env, m: Machine) {
    LayoutOk(image, l) && InFrame(l, m) && Bindings(image.target, l, env, m)
  }

  lemma ReadyKept(image: Image, l: Layout, env: Env, m: Machine, m': Machine, d: nat, calls: bool)
    requires Ready(image, l, env, m) && (calls ==> BindingsSafe(l))
    requires Same(image.target, m, m', EvalWrites(l, d, calls))
    ensures Ready(image, l, env, m')
  {
    BindingsKept(image.target, l, env, m, m', d, calls);
  }

  // ----- taking an expression apart -----

  predicate IsPair(e: Expr, left: Expr, right: Expr) {
    (e.Concat? && e.left == left && e.right == right) || (e.Binary? && e.left == left && e.right == right)
  }

  lemma PairLowerable(image: Image, l: Layout, e: Expr, left: Expr, right: Expr, d: nat)
    requires IsPair(e, left, right) && Lowerable(image, l, e, d)
    ensures Lowerable(image, l, left, d) && Lowerable(image, l, right, d + 1)
    ensures Calls(right) ==> CallSafe(l, EvalOperand(l, d))
  {
    forall k: nat | k < l.evalDepth && Crosses(left, d, k)
      ensures CallSafe(l, EvalOperand(l, k))
    {
      assert Crosses(e, d, k);
    }
    forall k: nat | k < l.evalDepth && Crosses(right, d + 1, k)
      ensures CallSafe(l, EvalOperand(l, k))
    {
      assert Crosses(e, d, k);
    }
    if Calls(right) {
      assert Crosses(e, d, d);
    }
  }

  lemma NegateLowerable(image: Image, l: Layout, left: Expr, d: nat)
    requires Lowerable(image, l, Negate(left), d)
    ensures Lowerable(image, l, left, d)
  {
    forall k: nat | k < l.evalDepth && Crosses(left, d, k)
      ensures CallSafe(l, EvalOperand(l, k))
    {
      assert Crosses(Negate(left), d, k);
    }
  }

  lemma ArgumentsLowerable(image: Image, l: Layout, e: Expr, d: nat)
    requires (e.Call? || e.Syscall?) && Lowerable(image, l, e, d)
    ensures LowerableFrom(image, l, e, 0, d)
  {
    forall k: nat | k < l.evalDepth && CrossesFrom(e, 0, d, k)
      ensures CallSafe(l, EvalOperand(l, k))
    {
      assert Crosses(e, d, k);
    }
  }

  lemma ArgumentLowerable(image: Image, l: Layout, e: Expr, w: nat, d: nat)
    requires LowerableFrom(image, l, e, w, d) && w < WrittenCount(e)
    ensures HasWritten(e, w) && Lowerable(image, l, Written(e, w), d + w)
    ensures LowerableFrom(image, l, e, w + 1, d)
    ensures CallsFrom(e, w + 1) ==> CallSafe(l, EvalOperand(l, d + w))
  {
    WellFormedWritten(image.program.functions, l.frameSlots, e);
    forall k: nat | k < l.evalDepth && Crosses(Written(e, w), d + w, k)
      ensures CallSafe(l, EvalOperand(l, k))
    {
      assert CrossesFrom(e, w, d, k);
    }
    forall k: nat | k < l.evalDepth && CrossesFrom(e, w + 1, d, k)
      ensures CallSafe(l, EvalOperand(l, k))
    {
      assert CrossesFrom(e, w, d, k);
    }
    if CallsFrom(e, w + 1) {
      EarlierDepthsCross(e, w + 1, d, d + w);
      assert CrossesFrom(e, w, d, d + w);
    }
  }

  // ----- argument lists -----

  /** The arguments from w on have been evaluated, each into its own depth. */
  ghost predicate EvaluatesFrom(
      image: Image, l: Layout, e: Expr, w: nat, d: nat, arguments: Arguments, fuel: nat, m: Machine, pc: int, len: nat, n: nat)
  {
    var s := Run(image, Running(pc, m), n);
    match arguments
    case Values(words, out) =>
      && s.Running? && s.pc == pc + len && s.m.out == out
      && w + |words| == WrittenCount(e)
      && (forall j :: 0 <= j < |words| ==> Read(image.target, s.m, EvalOperand(l, d + w + j)) == words[j])
      && Same(image.target, m, s.m, EvalWrites(l, d + w, CallsFrom(e, w)))
    case Aborted(Trap(kind, out)) => s == Trapped(kind, out)
    case Aborted(Timeout) => s.Running? && n >= fuel
    case Aborted(_) => true
  }

  /** The step from one evaluated argument to the list of all of them. */
  lemma ArgumentsJoin(image: Image, l: Layout, e: Expr, w: nat, d: nat, fuel: nat, env: Env,
      m: Machine, pc: int, m1: Machine, len1: nat, len2: nat, word: Word, rest: Arguments, n1: nat, n2: nat)
    requires LowerableFrom(image, l, e, w, d) && w < WrittenCount(e) && HasWritten(e, w)
    requires Ready(image, l, env, m1)
    requires Run(image, Running(pc, m), n1) == Running(pc + len1, m1)
    requires Read(image.target, m1, EvalOperand(l, d + w)) == word
    requires Same(image.target, m, m1, EvalWrites(l, d + w, Calls(Written(e, w))))
    requires EvaluatesFrom(image, l, e, w + 1, d, rest, fuel, m1, pc + len1, len2, n2)
    ensures EvaluatesFrom(image, l, e, w, d,
      (match rest case Values(words, out) => Values([word] + words, out) case aborted => aborted),
      fuel, m, pc, len1 + len2, n1 + n2)
  {
    hide Same, EvalWrites, Sound, Run, WellFormedExpr, Crosses, CrossesFrom, EvalOperand;
    var t := image.target;
    RunPlus(image, Running(pc, m), n1, n2);
    if rest.Values? {
      ArgumentLowerable(image, l, e, w, d);
      var m2 := Run(image, Running(pc + len1, m1), n2).m;
      assert d + w < l.evalDepth;
      DepthKept(t, l, m1, m2, d + w, d + w + 1, CallsFrom(e, w + 1));
      WritesWiden(l, d + w, CallsFrom(e, w), d + w, Calls(Written(e, w)));
      WritesWiden(l, d + w, CallsFrom(e, w), d + w + 1, CallsFrom(e, w + 1));
      SameWider(t, m, m1, EvalWrites(l, d + w, Calls(Written(e, w))), EvalWrites(l, d + w, CallsFrom(e, w)));
      SameWider(t, m1, m2, EvalWrites(l, d + w + 1, CallsFrom(e, w + 1)), EvalWrites(l, d + w, CallsFrom(e, w)));
      SameTrans(t, m, m1, m2, EvalWrites(l, d + w, CallsFrom(e, w)));
      var words := [word] + rest.words;
      forall j | 0 <= j < |words|
        ensures Read(t, m2, EvalOperand(l, d + w + j)) == words[j]
      {
        if j > 0 {
          assert words[j] == rest.words[j - 1];
          assert d + w + j == d + (w + 1) + (j - 1);
        }
      }
    }
  }

  // ----- the call boundary -----

  lemma ArgumentRegisters(t: Target)
    ensures forall s: nat :: s < 6 ==> !IsAllocatable(FileOf(t), ArgumentRegister(t, s))
    ensures forall s: nat, u: nat :: s < u < 6 ==> ArgumentRegister(t, s) != ArgumentRegister(t, u)
    ensures !IsAllocatable(FileOf(t), 0)
  {
    match t
    case X64 =>
    case A64 =>
  }

  /** The boundary moves of a call meet the hypotheses of MovesPlace: no source is the destination of an earlier move. */
  lemma BoundaryOrderly(image: Image, l: Layout, order: seq<nat>, d: nat, m: Machine)
    requires LayoutOk(image, l) && InFrame(l, m) && IsPermutation(order) && |order| <= 6
    requires d + |order| <= l.evalDepth
    ensures var moves := BoundaryMoves(image.target, l, order, d);
      Orderly(moves) && Above(image.target, m, moves)
    ensures Destinations(BoundaryMoves(image.target, l, order, d)) <= EvalWrites(l, d, true)
  {
    var t := image.target;
    ArgumentRegisters(t);
    var moves := BoundaryMoves(t, l, order, d);
    forall i | 0 <= i < |moves|
      ensures moves[i].0.Reg? && !IsAllocatable(l.file, moves[i].0.reg)
      ensures Usable(l.file, moves[i].1)
      ensures moves[i].1.Slot? ==> SlotAddress(t, m, moves[i].1.slot) >= m.sp
    {
      EvalInFrame(t, l, m, d + i);
    }
    forall i, j | 0 <= i < j < |moves|
      ensures moves[i].0 != moves[j].0
    {
      assert order[i] != order[j];
    }
  }

  /** After the boundary is filled, every slot's register holds the argument written for it. */
  lemma BoundaryFilled(image: Image, l: Layout, order: seq<nat>, d: nat, words: seq<Word>, m: Machine)
    requires LayoutOk(image, l) && InFrame(l, m) && IsPermutation(order) && |order| <= 6
    requires d + |order| <= l.evalDepth && |words| == |order|
    requires forall j :: 0 <= j < |words| ==> Read(image.target, m, EvalOperand(l, d + j)) == words[j]
    ensures RunBlock(image.target, MoveAll(image.target, BoundaryMoves(image.target, l, order, d)), 0, m).Falls?
    ensures var t := image.target;
      var m' := RunBlock(t, MoveAll(t, BoundaryMoves(t, l, order, d)), 0, m).m;
      && m'.out == m.out
      && (forall s :: 0 <= s < |order| ==> Get(m'.regs, ArgumentRegister(t, s)) == Place(order, words)[s])
      && Same(t, m, m', Destinations(BoundaryMoves(t, l, order, d)))
  {
    hide Orderly, Above, Same, IsPermutation, RunBlock, Sound;
    var t := image.target;
    var moves := BoundaryMoves(t, l, order, d);
    BoundaryOrderly(image, l, order, d, m);
    MovesPlace(t, moves, m);
    BoundaryPlaced(t, l, order, d, words, m, RunBlock(t, MoveAll(t, moves), 0, m).m);
  }

  lemma BoundaryPlaced(t: Target, l: Layout, order: seq<nat>, d: nat, words: seq<Word>, m: Machine, m': Machine)
    requires IsPermutation(order) && |order| <= 6 && |words| == |order|
    requires forall j :: 0 <= j < |words| ==> Read(t, m, EvalOperand(l, d + j)) == words[j]
    requires Placed(t, m, m', BoundaryMoves(t, l, order, d))
    ensures forall s :: 0 <= s < |order| ==> Get(m'.regs, ArgumentRegister(t, s)) == Place(order, words)[s]
  {
    var moves := BoundaryMoves(t, l, order, d);
    forall s | 0 <= s < |order|
      ensures Get(m'.regs, ArgumentRegister(t, s)) == Place(order, words)[s]
    {
      SlotIsWritten(order, s);
      var w :| 0 <= w < |order| && order[w] == s;
      PlaceAt(order, words, w);
      assert moves[w] == (Reg(ArgumentRegister(t, s)), EvalOperand(l, d + w));
    }
  }

  // ----- functions seen from their callers -----

  /**
   A finished call: the result in register 0, the frame pointer, the stack
   pointer, the call-safe registers and everything above the entry stack
   pointer as they were at entry.
   */
  ghost predicate Returned(t: Target, m0: Machine, m: Machine, v: Word) {
    && m.fp == m0.fp
    && m.sp == m0.sp + (if t.X64? then 1 else 0)
    && (forall r :: r in FileOf(t).callSafe ==> Get(m.regs, r) == Get(m0.regs, r))
    && (forall a :: a >= m0.sp ==> Get(m.mem, a) == Get(m0.mem, a))
    && Get(m.regs, 0) == v
  }

  ghost predicate Finishes(image: Image, outcome: Outcome, fuel: nat, m: Machine, pc: int, m0: Machine, ret: int, n: nat) {
    var s := Run(image, Running(pc, m), n);
    match outcome
    case Value(v, out) => s.Running? && s.pc == ret && s.m.out == out && Returned(image.target, m0, s.m, v)
    case Trap(kind, out) => s == Trapped(kind, out)
    case Timeout => s.Running? && n >= fuel
    case Stuck => true
  }

  lemma FinishesLater(image: Image, outcome: Outcome, fuel: nat, m: Machine, pc: int,
      m1: Machine, pc1: int, m0: Machine, ret: int, n1: nat, n2: nat)
    requires Run(image, Running(pc, m), n1) == Running(pc1, m1)
    requires Finishes(image, outcome, fuel, m1, pc1, m0, ret, n2)
    ensures Finishes(image, outcome, fuel, m, pc, m0, ret, n1 + n2)
  {
    RunPlus(image, Running(pc, m), n1, n2);
  }

  /** One instruction that transfers control. */
  lemma TransferStep(image: Image, i: Instr, pc: int, m: Machine, m': Machine, pc': int)
    requires CodeAt(image.code, pc, [i])
    requires ExecLocal(image.target, i, m) == Transfers && Transfer(image, i, pc, m) == Running(pc', m')
    ensures Run(image, Running(pc, m), 1) == Running(pc', m')
  {
    assert image.code[pc] == [i][0];
    assert Run(image, Running(pc', m'), 0) == Running(pc', m');
  }

  /** To its caller, a call is one more stretch of code that keeps what is live. */
  lemma ReturnedIsSame(t: Target, l: Layout, d: nat, m: Machine, ret: int, m': Machine, v: Word)
    requires l.file == FileOf(t) && Returned(t, PushReturn(t, m, ret), m', v)
    ensures Same(t, m, m', EvalWrites(l, d, true)) && Get(m'.regs, 0) == v
  {
    var m0 := PushReturn(t, m, ret);
    forall r: nat | Reg(r) !in EvalWrites(l, d, true)
      ensures Get(m'.regs, r) == Get(m.regs, r)
    {
      assert r in l.file.callSafe;
      assert Get(m'.regs, r) == Get(m0.regs, r);
    }
  }

  /** A word in register 0 becomes the value of depth d. */
  lemma FromRegisterZero(image: Image, l: Layout, d: nat, fuel: nat, m: Machine, pc: int) returns (n: nat)
    requires LayoutOk(image, l) && d < l.evalDepth
    requires CodeAt(image.code, pc, Move(image.target, EvalOperand(l, d), Reg(0)))
    ensures Evaluates(image, l, d, true, Value(Get(m.regs, 0), m.out), fuel, m, pc,
                      |Move(image.target, EvalOperand(l, d), Reg(0))|, n)
  {
    var t := image.target;
    var result := EvalOperand(l, d);
    assert EvalLocated(l, result);
    MoveLeaf(t, result, Reg(0), m);
    n := PlacementEvaluates(image, l, d, true, fuel, Get(m.regs, 0), m, pc, Move(t, result, Reg(0)));
  }

  lemma CallStep(image: Image, f: nat, pc: int, m: Machine)
    requires CodeAt(image.code, pc, [CallFunction(f)]) && f < |image.entry|
    ensures Run(image, Running(pc, m), 1) == Running(image.entry[f], PushReturn(image.target, m, pc + 1))
  {
    TransferStep(image, CallFunction(f), pc, m, PushReturn(image.target, m, pc + 1), image.entry[f]);
  }

  lemma CallCompletes(image: Image, l: Layout, d: nat, fuel: nat, outcome: Outcome, f: nat,
      m: Machine, pc: int, n3: nat) returns (n: nat)
    requires LayoutOk(image, l) && d < l.evalDepth && fuel > 0 && f < |image.entry|
    requires CodeAt(image.code, pc, [CallFunction(f)] + Move(image.target, EvalOperand(l, d), Reg(0)))
    requires var m0 := PushReturn(image.target, m, pc + 1);
      Finishes(image, outcome, fuel - 1, m0, image.entry[f], m0, pc + 1, n3)
    ensures Evaluates(image, l, d, true, outcome, fuel, m, pc, 1 + |Move(image.target, EvalOperand(l, d), Reg(0))|, n)
  {
    hide Same, EvalWrites, Sound, Returned, Run, PushReturn, Move, EvalOperand, CodeAt;
    var t := image.target;
    var move := Move(t, EvalOperand(l, d), Reg(0));
    var m0 := PushReturn(t, m, pc + 1);
    CodeAtSplit(image.code, pc, [CallFunction(f)], move);
    CallStep(image, f, pc, m);
    RunPlus(image, Running(pc, m), 1, n3);
    if outcome.Value? {
      var m4 := Run(image, Running(image.entry[f], m0), n3).m;
      ReturnedIsSame(t, l, d, m, pc + 1, m4, outcome.word);
      var n4 := FromRegisterZero(image, l, d, fuel, m4, pc + 1);
      Prefixed(image, l, d, true, outcome, fuel, m, pc, m4, pc + 1, 1 + |move|, |move|, 1 + n3, n4);
      n := 1 + n3 + n4;
    } else {
      n := 1 + n3;
    }
  }

  // ----- runtime helpers and system calls -----

  lemma ClobberKeeps(image: Image, m: Machine)
    ensures var m' := Clobber(image, m);
      && m'.sp == m.sp && m'.fp == m.fp
      && (forall r: nat :: r in FileOf(image.target).callSafe ==> Get(m'.regs, r) == Get(m.regs, r))
      && (forall a :: a >= m.sp ==> Get(m'.mem, a) == Get(m.mem, a))
  {}

  /** Whatever keeps the call-safe registers and the frame is within what a calling expression may write. */
  lemma KeepsIsSame(image: Image, l: Layout, d: nat, m: Machine, m': Machine)
    requires l.file == FileOf(image.target) && m'.sp == m.sp && m'.fp == m.fp
    requires forall r: nat :: r in l.file.callSafe ==> Get(m'.regs, r) == Get(m.regs, r)
    requires forall a :: a >= m.sp ==> Get(m'.mem, a) == Get(m.mem, a)
    ensures Same(image.target, m, m', EvalWrites(l, d, true))
  {}

  lemma ConcatStep(image: Image, pc: int, m: Machine, a: string, b: string) returns (m': Machine)
    requires CodeAt(image.code, pc, [CallConcat])
    requires Get(m.regs, ArgumentRegister(image.target, 0)) == Text(a)
    requires Get(m.regs, ArgumentRegister(image.target, 1)) == Text(b)
    ensures Run(image, Running(pc, m), 1) == Running(pc + 1, m')
    ensures m'.out == m.out && m'.sp == m.sp && m'.fp == m.fp && Get(m'.regs, 0) == Text(a + b)
    ensures forall r: nat :: r in FileOf(image.target).callSafe ==> Get(m'.regs, r) == Get(m.regs, r)
    ensures forall c :: c >= m.sp ==> Get(m'.mem, c) == Get(m.mem, c)
  {
    var m1 := Clobber(image, m);
    ClobberKeeps(image, m);
    m' := m1.(regs := m1.regs[0 := Text(a + b)]);
    ArgumentRegisters(image.target);
    TransferStep(image, CallConcat, pc, m, m', pc + 1);
  }

  lemma ConcatCompletes(image: Image, l: Layout, d: nat, fuel: nat, a: string, b: string, m: Machine, pc: int) returns (n: nat)
    requires LayoutOk(image, l) && d < l.evalDepth
    requires CodeAt(image.code, pc, [CallConcat] + Move(image.target, EvalOperand(l, d), Reg(0)))
    requires Get(m.regs, ArgumentRegister(image.target, 0)) == Text(a)
    requires Get(m.regs, ArgumentRegister(image.target, 1)) == Text(b)
    ensures Evaluates(image, l, d, true, Value(Text(a + b), m.out), fuel, m, pc,
                      1 + |Move(image.target, EvalOperand(l, d), Reg(0))|, n)
  {
    hide Same, EvalWrites, Sound, Run, Move, EvalOperand, CodeAt, ArgumentRegister;
    var move := Move(image.target, EvalOperand(l, d), Reg(0));
    CodeAtSplit(image.code, pc, [CallConcat], move);
    var m1 := ConcatStep(image, pc, m, a, b);
    KeepsIsSame(image, l, d, m, m1);
    var n2 := FromRegisterZero(image, l, d, fuel, m1, pc + 1);
    Prefixed(image, l, d, true, Value(Text(a + b), m.out), fuel, m, pc, m1, pc + 1, 1 + |move|, |move|, 1, n2);
    n := 1 + n2;
  }

  lemma ConcatOrderly(image: Image, l: Layout, d: nat, m: Machine)
    requires LayoutOk(image, l) && InFrame(l, m) && d + 2 <= l.evalDepth
    ensures var moves := ConcatMoves(image.target, l, d);
      Orderly(moves) && Above(image.target, m, moves) && Destinations(moves) <= EvalWrites(l, d, true)
  {
    ArgumentRegisters(image.target);
    EvalInFrame(image.target, l, m, d);
    EvalInFrame(image.target, l, m, d + 1);
  }

  lemma ConcatMovesPlace(image: Image, l: Layout, d: nat, m: Machine)
    requires LayoutOk(image, l) && InFrame(l, m) && d + 2 <= l.evalDepth
    ensures var t := image.target;
      var moves := ConcatMoves(t, l, d);
      && RunBlock(t, MoveAll(t, moves), 0, m).Falls?
      && var m' := RunBlock(t, MoveAll(t, moves), 0, m).m;
        && m'.out == m.out
        && Get(m'.regs, ArgumentRegister(t, 0)) == Read(t, m, EvalOperand(l, d))
        && Get(m'.regs, ArgumentRegister(t, 1)) == Read(t, m, EvalOperand(l, d + 1))
        && Same(t, m, m', EvalWrites(l, d, true))
  {
    hide Orderly, Above, Same, RunBlock, Sound, EvalWrites, MoveAll, EvalOperand;
    var t := image.target;
    var moves := ConcatMoves(t, l, d);
    ConcatOrderly(image, l, d, m);
    MovesPlace(t, moves, m);
    var m' := RunBlock(t, MoveAll(t, moves), 0, m).m;
    assert Read(t, m', moves[0].0) == Read(t, m, moves[0].1);
    assert Read(t, m', moves[1].0) == Read(t, m, moves[1].1);
    SameWider(t, m, m', Destinations(moves), EvalWrites(l, d, true));
  }

  /** Which argument the i-th move of the syscall boundary places: r10's is last. */
  function SyscallIndex(count: nat, i: nat): nat {
    if count <= 4 || i < 4 then i else if i == count - 1 then 4 else i + 1
  }

  lemma SyscallMoveAt(l: Layout, count: nat, d: nat, i: nat)
    requires count <= 7 && i < count
    ensures |SyscallMoves(l, count, d)| == count && SyscallIndex(count, i) < count
    ensures SyscallMoves(l, count, d)[i] ==
      (Reg(X64_SYSCALL[SyscallIndex(count, i)]), EvalOperand(l, d + SyscallIndex(count, i)))
  {}

  lemma SyscallMoveShape(image: Image, l: Layout, count: nat, d: nat, m: Machine, i: nat)
    requires image.target.X64? && LayoutOk(image, l) && InFrame(l, m) && count <= 7 && d + count <= l.evalDepth && i < count
    ensures |SyscallMoves(l, count, d)| == count
    ensures var move := SyscallMoves(l, count, d)[i];
      && Usable(l.file, move.1) && move.0.Reg?
      && (move.0 == Reg(R10) || !IsAllocatable(l.file, move.0.reg))
      && (move.0 == Reg(R10) ==> i == count - 1)
      && (move.1.Slot? ==> SlotAddress(X64, m, move.1.slot) >= m.sp)
  {
    SyscallMoveAt(l, count, d, i);
    SyscallRegisterKind(count, i);
    hide SyscallMoves, EvalOperand, Sound;
    EvalInFrame(X64, l, m, d + SyscallIndex(count, i));
  }

  lemma SyscallRegisterKind(count: nat, i: nat)
    requires count <= 7 && i < count
    ensures var r := X64_SYSCALL[SyscallIndex(count, i)];
      (r == R10 || !IsAllocatable(X64_FILE, r)) && (r == R10 ==> i == count - 1)
  {
  }

  lemma SyscallTargetsDiffer(l: Layout, count: nat, d: nat, i: nat, j: nat)
    requires count <= 7 && i < j < count
    ensures |SyscallMoves(l, count, d)| == count
    ensures SyscallMoves(l, count, d)[i].0 != SyscallMoves(l, count, d)[j].0
  {
    SyscallMoveAt(l, count, d, i);
    SyscallMoveAt(l, count, d, j);
  }

  /** The same of a system call's moves: r10, the only register that is both a source and a destination, comes last. */
  lemma SyscallOrderly(image: Image, l: Layout, count: nat, d: nat, m: Machine)
    requires image.target.X64? && LayoutOk(image, l) && InFrame(l, m) && count <= 7 && d + count <= l.evalDepth
    ensures var moves := SyscallMoves(l, count, d);
      && Orderly(moves) && Above(X64, m, moves) && Destinations(moves) <= EvalWrites(l, d, true)
  {
    hide SyscallMoves, Sound;
    var moves := SyscallMoves(l, count, d);
    assert |moves| == count by {
      if count > 0 { SyscallMoveAt(l, count, d, 0); } else { SyscallNone(l, d); }
    }
    forall i | 0 <= i < count
      ensures Usable(l.file, moves[i].1) && moves[i].0.Reg?
      ensures moves[i].0 == Reg(R10) || !IsAllocatable(l.file, moves[i].0.reg)
      ensures moves[i].0 == Reg(R10) ==> i == count - 1
      ensures moves[i].1.Slot? ==> SlotAddress(X64, m, moves[i].1.slot) >= m.sp
    {
      SyscallMoveShape(image, l, count, d, m, i);
    }
    forall i, j | 0 <= i < j < count
      ensures moves[i].0 != moves[j].0
    {
      SyscallTargetsDiffer(l, count, d, i, j);
    }
  }

  lemma SyscallNone(l: Layout, d: nat)
    ensures SyscallMoves(l, 0, d) == []
  {}

  lemma SyscallFilled(image: Image, l: Layout, d: nat, words: seq<Word>, m: Machine)
    requires image.target.X64? && LayoutOk(image, l) && InFrame(l, m) && |words| <= 7 && d + |words| <= l.evalDepth
    requires forall j :: 0 <= j < |words| ==> Read(X64, m, EvalOperand(l, d + j)) == words[j]
    ensures var code := MoveAll(X64, SyscallMoves(l, |words|, d));
      && RunBlock(X64, code, 0, m).Falls?
      && var m' := RunBlock(X64, code, 0, m).m;
        m'.out == m.out && SyscallArguments(m', |words|) == words && Same(X64, m, m', EvalWrites(l, d, true))
  {
    hide Orderly, Above, Same, RunBlock, Sound, SyscallMoves, EvalWrites;
    var moves := SyscallMoves(l, |words|, d);
    SyscallOrderly(image, l, |words|, d, m);
    MovesPlace(X64, moves, m);
    var m' := RunBlock(X64, MoveAll(X64, moves), 0, m).m;
    SameWider(X64, m, m', Destinations(moves), EvalWrites(l, d, true));
    SyscallPlaced(l, d, words, m, m');
  }

  lemma SyscallPlaced(l: Layout, d: nat, words: seq<Word>, m: Machine, m': Machine)
    requires |words| <= 7 && Placed(X64, m, m', SyscallMoves(l, |words|, d))
    requires forall j :: 0 <= j < |words| ==> Read(X64, m, EvalOperand(l, d + j)) == words[j]
    ensures SyscallArguments(m', |words|) == words
  {
    var count := |words|;
    assert X64_SYSCALL == KERNEL_REGISTERS;
    forall j | 0 <= j < count
      ensures Get(m'.regs, X64_SYSCALL[j]) == words[j]
    {
      var i := if count <= 4 || j < 4 then j else if j == 4 then count - 1 else j - 1;
      SyscallMoveAt(l, count, d, i);
      assert SyscallIndex(count, i) == j;
    }
  }

  lemma KernelStep(image: Image, count: nat, pc: int, m: Machine, words: seq<Word>) returns (m': Machine)
    requires image.target.X64? && CodeAt(image.code, pc, [KernelCall(count)])
    requires SyscallArguments(m, count) == words && AllInts(words)
    ensures Run(image, Running(pc, m), 1) == Running(pc + 1, m')
    ensures m'.out == m.out + [Event.Syscall(words)] && m'.sp == m.sp && m'.fp == m.fp && m'.mem == m.mem
    ensures Get(m'.regs, RAX) == Int(image.program.kernel(m.out, words))
    ensures forall r: nat :: r in X64_FILE.callSafe ==> Get(m'.regs, r) == Get(m.regs, r)
  {
    m' := m.(
      regs := m.regs[RCX := Get(image.junk(m.out), RCX)][R11 := Get(image.junk(m.out), R11)]
                    [RAX := Int(image.program.kernel(m.out, words))],
      out := m.out + [Event.Syscall(words)]);
    TransferStep(image, KernelCall(count), pc, m, m', pc + 1);
  }

  lemma SyscallCompletes(image: Image, l: Layout, d: nat, fuel: nat, words: seq<Word>, m: Machine, pc: int) returns (n: nat)
    requires image.target.X64? && LayoutOk(image, l) && d < l.evalDepth
    requires CodeAt(image.code, pc, [KernelCall(|words|)] + Move(X64, EvalOperand(l, d), Reg(0)))
    requires SyscallArguments(m, |words|) == words && AllInts(words)
    ensures Evaluates(image, l, d, true, FinishSyscall(image.program, words, m.out), fuel, m, pc,
                      1 + |Move(X64, EvalOperand(l, d), Reg(0))|, n)
  {
    hide Same, EvalWrites, Sound, Run, Move, EvalOperand, CodeAt, SyscallArguments;
    var move := Move(X64, EvalOperand(l, d), Reg(0));
    CodeAtSplit(image.code, pc, [KernelCall(|words|)], move);
    var m1 := KernelStep(image, |words|, pc, m, words);
    KeepsIsSame(image, l, d, m, m1);
    var n2 := FromRegisterZero(image, l, d, fuel, m1, pc + 1);
    Prefixed(image, l, d, true, FinishSyscall(image.program, words, m.out), fuel, m, pc, m1, pc + 1, 1 + |move|, |move|, 1, n2);
    n := 1 + n2;
  }
}
