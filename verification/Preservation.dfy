/**
 Lowering preserves meaning: running the code of an expression does what the
 expression means, and leaves everything still live untouched.
 */
module Preservation {
  import opened Words
  import opened Core
  import opened Pressure
  import opened Targets
  import opened Machine
  import opened Lowering
  import opened Blocks
  import opened Leaves
  import opened Frames

  // ----- what an expression may write -----

  ghost predicate EvalFrom(l: Layout, d: nat, o: Operand) {
    exists k :: d <= k < l.evalDepth && o == EvalOperand(l, k)
  }

  ghost predicate Writable(l: Layout, d: nat, calls: bool, o: Operand) {
    || (o.Reg? && !IsAllocatable(l.file, o.reg))
    || (calls && o.Reg? && o.reg in l.file.scratch)
    || EvalFrom(l, d, o)
  }

  /**
   Evaluating at depth d may write the depths from d on, the registers that are
   never allocated and, when it calls, the caller-saved ones.
   */
  ghost function EvalWrites(l: Layout, d: nat, calls: bool): iset<Operand> {
    iset o: Operand | Writable(l, d, calls, o)
  }

  lemma WritesWiden(l: Layout, d: nat, calls: bool, d': nat, calls': bool)
    requires d <= d' && (calls' ==> calls)
    ensures EvalWrites(l, d', calls') <= EvalWrites(l, d, calls)
  {
    forall o | o in EvalWrites(l, d', calls')
      ensures o in EvalWrites(l, d, calls)
    {
      if EvalFrom(l, d', o) {
        var k :| d' <= k < l.evalDepth && o == EvalOperand(l, k);
        assert EvalFrom(l, d, o);
      }
    }
  }

  /** A shallower depth survives, if it is call-safe whenever something calls. */
  lemma ShallowKept(l: Layout, k: nat, d: nat, calls: bool)
    requires Sound(l) && k < d && k < l.evalDepth && (calls ==> CallSafe(l, EvalOperand(l, k)))
    ensures EvalOperand(l, k) !in EvalWrites(l, d, calls)
  {
    var o := EvalOperand(l, k);
    assert EvalLocated(l, o);
  }

  lemma ValueKept(l: Layout, s: nat, d: nat, calls: bool)
    requires Sound(l) && s < l.frameSlots && (calls ==> CallSafe(l, ValueOperand(l, s)))
    ensures ValueOperand(l, s) !in EvalWrites(l, d, calls)
  {
    var o := ValueOperand(l, s);
    assert ValueLocated(l, s, o);
  }

  lemma OwnDepthWritten(l: Layout, d: nat, calls: bool)
    requires d < l.evalDepth
    ensures EvalOperand(l, d) in EvalWrites(l, d, calls)
  {
    assert EvalFrom(l, d, EvalOperand(l, d));
  }

  /** Writing one depth and the unallocated registers is within bounds. */
  lemma JustWithin(l: Layout, d: nat, calls: bool)
    requires d < l.evalDepth
    ensures Just(l.file, EvalOperand(l, d)) <= EvalWrites(l, d, calls)
  {
    OwnDepthWritten(l, d, calls);
  }

  // ----- frames and bindings -----

  ghost predicate InFrame(l: Layout, m: Machine) {
    m.sp == m.fp - l.FrameWords()
  }

  lemma SlotsAbove(t: Target, l: Layout, m: Machine, s: nat)
    requires InFrame(l, m) && s < l.TotalSlots()
    ensures m.sp <= SlotAddress(t, m, s) < m.fp
  {}

  /** Every binding already made is in its location. */
  ghost predicate Bindings(t: Target, l: Layout, env: Env, m: Machine) {
    forall s: nat :: s in env ==> s < l.frameSlots && Read(t, m, ValueOperand(l, s)) == env[s]
  }

  ghost predicate BindingsSafe(l: Layout) {
    forall s :: 0 <= s < l.frameSlots ==> CallSafe(l, ValueOperand(l, s))
  }

  lemma BindingsKept(t: Target, l: Layout, env: Env, m: Machine, m': Machine, d: nat, calls: bool)
    requires Sound(l) && InFrame(l, m) && Bindings(t, l, env, m) && (calls ==> BindingsSafe(l))
    requires Same(t, m, m', EvalWrites(l, d, calls))
    ensures InFrame(l, m') && Bindings(t, l, env, m')
  {
    forall s: nat | s in env
      ensures s < l.frameSlots && Read(t, m', ValueOperand(l, s)) == env[s]
    {
      ValueKept(l, s, d, calls);
      ValueInFrame(t, l, m, s);
      SameRead(t, m, m', EvalWrites(l, d, calls), ValueOperand(l, s));
    }
  }

  lemma ValueInFrame(t: Target, l: Layout, m: Machine, s: nat)
    requires Sound(l) && InFrame(l, m) && s < l.frameSlots
    ensures var o := ValueOperand(l, s);
      Usable(l.file, o) && (o.Slot? ==> m.sp <= SlotAddress(t, m, o.slot) < m.fp)
  {
    assert ValueLocated(l, s, ValueOperand(l, s));
  }

  lemma EvalInFrame(t: Target, l: Layout, m: Machine, k: nat)
    requires Sound(l) && InFrame(l, m) && k < l.evalDepth
    ensures var o := EvalOperand(l, k);
      Usable(l.file, o) && (o.Slot? ==> m.sp <= SlotAddress(t, m, o.slot) < m.fp)
  {
    assert EvalLocated(l, EvalOperand(l, k));
  }

  /** A shallower depth keeps its value. */
  lemma DepthKept(t: Target, l: Layout, m: Machine, m': Machine, k: nat, d: nat, calls: bool)
    requires Sound(l) && InFrame(l, m) && k < d && k < l.evalDepth && (calls ==> CallSafe(l, EvalOperand(l, k)))
    requires Same(t, m, m', EvalWrites(l, d, calls))
    ensures Read(t, m', EvalOperand(l, k)) == Read(t, m, EvalOperand(l, k))
  {
    ShallowKept(l, k, d, calls);
    EvalInFrame(t, l, m, k);
    SameRead(t, m, m', EvalWrites(l, d, calls), EvalOperand(l, k));
  }

  // ----- layouts that fit what they are used for -----

  ghost predicate FitsExpr(l: Layout, e: Expr, d: nat) {
    && d + Need(e) <= l.evalDepth
    && (forall k: nat :: k < l.evalDepth && Crosses(e, d, k) ==> CallSafe(l, EvalOperand(l, k)))
    && (Calls(e) ==> BindingsSafe(l))
  }

  ghost predicate FitsFrom(l: Layout, e: Expr, w: nat, d: nat) {
    && d + NeedFrom(e, w) <= l.evalDepth
    && (forall k: nat :: k < l.evalDepth && CrossesFrom(e, w, d, k) ==> CallSafe(l, EvalOperand(l, k)))
    && (CallsFrom(e, w) ==> BindingsSafe(l))
  }

  predicate SyscallFree(e: Expr)
    decreases e
  {
    match e
    case Literal(_) => true
    case TextLiteral(_) => true
    case Parameter(_) => true
    case Call(_, arguments, _) => forall s :: 0 <= s < |arguments| ==> SyscallFree(arguments[s])
    case Syscall(_) => false
    case Negate(left) => SyscallFree(left)
    case Concat(left, right) => SyscallFree(left) && SyscallFree(right)
    case Binary(_, left, right) => SyscallFree(left) && SyscallFree(right)
  }

  predicate SyscallFreeStmt(s: Stmt) {
    SyscallFree(s.value) && (s.IfReturn? ==> SyscallFree(s.condition))
  }

  /** What a layout owes the function it was made for. */
  ghost predicate LayoutFor(t: Target, f: Function, l: Layout) {
    && Sound(l) && l.file == FileOf(t) && l.frameSlots == f.FrameSlots()
    && BodyNeed(f.body, 0) <= l.evalDepth
    && (forall k: nat :: k < l.evalDepth && BodyCrosses(f.body, 0, k) ==> CallSafe(l, EvalOperand(l, k)))
    && (BodyCalls(f.body, 0) ==> BindingsSafe(l))
  }

  /** An image holding the code of every function where its entry table says. */
  ghost predicate Compiled(image: Image, layouts: seq<Layout>) {
    var functions := image.program.functions;
    && WellFormed(image.program)
    && |layouts| == |functions| && |image.entry| == |functions|
    && forall f :: 0 <= f < |functions| ==> CompiledFunction(image, layouts[f], f)
  }

  ghost predicate CompiledFunction(image: Image, l: Layout, f: nat)
    requires f < |image.program.functions| && f < |image.entry|
  {
    var function_ := image.program.functions[f];
    && LayoutFor(image.target, function_, l)
    && CodeAt(image.code, image.entry[f], FunctionCode(image.target, l, f, function_))
    && (image.target.A64? ==> forall i :: 0 <= i < |function_.body| ==> SyscallFreeStmt(function_.body[i]))
  }

  // ----- outcomes of running code -----

  /**
   After n steps from m at pc the code, `len` instructions long, has done what
   `outcome` says: reached its end with the value in the location of depth d,
   trapped with the same kind and trace, or, when the source ran out of fuel,
   is still running after at least that many steps.
   */
  ghost predicate Evaluates(
      image: Image, l: Layout, d: nat, calls: bool, outcome: Outcome, fuel: nat, m: Machine, pc: int, len: nat, n: nat)
  {
    var s := Run(image, Running(pc, m), n);
    match outcome
    case Value(v, out) =>
      && s.Running? && s.pc == pc + len && s.m.out == out
      && Read(image.target, s.m, EvalOperand(l, d)) == v
      && Same(image.target, m, s.m, EvalWrites(l, d, calls))
    case Trap(kind, out) => s == Trapped(kind, out)
    case Timeout => s.Running? && n >= fuel
    case Stuck => true
  }

  /** What is left to do after some steps, prefixed with those steps. */
  lemma Prefixed(image: Image, l: Layout, d: nat, calls: bool, outcome: Outcome, fuel: nat,
      m: Machine, pc: int, m1: Machine, pc1: int, len: nat, len1: nat, n1: nat, n2: nat)
    requires Run(image, Running(pc, m), n1) == Running(pc1, m1)
    requires pc1 + len1 == pc + len
    requires Same(image.target, m, m1, EvalWrites(l, d, calls))
    requires Evaluates(image, l, d, calls, outcome, fuel, m1, pc1, len1, n2)
    ensures Evaluates(image, l, d, calls, outcome, fuel, m, pc, len, n1 + n2)
  {
    RunPlus(image, Running(pc, m), n1, n2);
    if outcome.Value? {
      var s := Run(image, Running(pc1, m1), n2);
      SameTrans(image.target, m, m1, s.m, EvalWrites(l, d, calls));
    }
  }

  /** Running a block that confines itself to the depth's own location. */
  lemma BlockEvaluates(image: Image, l: Layout, d: nat, calls: bool, fuel: nat,
      a: Arithmetic, m: Machine, pc: int, code: seq<Instr>) returns (n: nat)
    requires CodeAt(image.code, pc, code) && l.file == FileOf(image.target) && d < l.evalDepth
    requires Ends(image.target, m, RunBlock(image.target, code, 0, m), EvalOperand(l, d), a)
    ensures Evaluates(image, l, d, calls, Finish(a, m.out), fuel, m, pc, |code|, n)
  {
    n := BlockRuns(image, code, 0, m, pc);
    if a.Exactly? {
      var m1 := RunBlock(image.target, code, 0, m).m;
      OnlyIsSame(image.target, m, m1, EvalOperand(l, d));
      JustWithin(l, d, calls);
      SameWider(image.target, m, m1, Just(l.file, EvalOperand(l, d)), EvalWrites(l, d, calls));
    }
  }

  /** The same for a block that only moves a word into the depth's location. */
  lemma PlacementEvaluates(image: Image, l: Layout, d: nat, calls: bool, fuel: nat,
      v: Word, m: Machine, pc: int, code: seq<Instr>) returns (n: nat)
    requires CodeAt(image.code, pc, code) && l.file == FileOf(image.target) && d < l.evalDepth
    requires RunBlock(image.target, code, 0, m).Falls?
    requires var m1 := RunBlock(image.target, code, 0, m).m;
      Read(image.target, m1, EvalOperand(l, d)) == v && Only(image.target, m, m1, EvalOperand(l, d))
    ensures Evaluates(image, l, d, calls, Value(v, m.out), fuel, m, pc, |code|, n)
  {
    n := BlockRuns(image, code, 0, m, pc);
    var m1 := RunBlock(image.target, code, 0, m).m;
    OnlyIsSame(image.target, m, m1, EvalOperand(l, d));
    JustWithin(l, d, calls);
    SameWider(image.target, m, m1, Just(l.file, EvalOperand(l, d)), EvalWrites(l, d, calls));
  }
}
