/**
 Whole images: what a program does and what its machine code does are the same,
 on either target, including when neither ever stops.
 */
module WholeProgram {
  import opened Words
  import opened Core
  import opened Typing
  import opened Targets
  import opened Machine
  import opened Lowering
  import opened Blocks
  import opened Preservation
  import opened Correctness
  import opened Activation
  import opened Execution

  /** Everything a build needs: accepted functions, a sound layout for each, and no system calls on AArch64. */
  ghost predicate Buildable(t: Target, p: Program, layouts: seq<Layout>) {
    && WellFormed(p) && |layouts| == |p.functions|
    && forall f :: 0 <= f < |layouts| ==>
         LayoutFor(t, p.functions[f], layouts[f]) && (t.A64? ==> SyscallFreeBody(p.functions[f].body))
  }

  predicate SyscallFreeBody(body: seq<Stmt>) {
    forall i :: 0 <= i < |body| ==> SyscallFreeStmt(body[i])
  }

  // ----- every function lies where its entry says -----

  lemma {:induction false} FunctionsAt(t: Target, layouts: seq<Layout>, functions: seq<Function>, code: seq<Instr>, base: nat, i: nat)
    requires |layouts| == |functions| && i <= |functions|
    requires CodeAt(code, base, FunctionsCode(t, layouts, functions, 0))
    ensures CodeAt(code, EntryOf(t, layouts, functions, i, base), FunctionsCode(t, layouts, functions, i))
  {
    hide FunctionCode, CodeAt;
    if i > 0 {
      FunctionsAt(t, layouts, functions, code, base, i - 1);
      CodeAtSplit(code, EntryOf(t, layouts, functions, i - 1, base),
                  FunctionCode(t, layouts[i - 1], i - 1, functions[i - 1]), FunctionsCode(t, layouts, functions, i));
    }
  }

  lemma ImageCompiled(t: Target, p: Program, layouts: seq<Layout>, junk: Junk)
    requires Buildable(t, p, layouts)
    ensures Compiled(ProgramImage(t, p, layouts, junk), layouts)
    ensures CodeAt(ProgramImage(t, p, layouts, junk).code, 0, [CallFunction(p.main)])
    ensures CodeAt(ProgramImage(t, p, layouts, junk).code, 1, [Exit])
  {
    hide FunctionCode, FunctionsCode, CodeAt, LayoutFor, WellFormed;
    var image := ProgramImage(t, p, layouts, junk);
    var all := FunctionsCode(t, layouts, p.functions, 0);
    WholeCode(image.code);
    CodeAtSplit(image.code, 0, EntryStub(p.main), all);
    assert EntryStub(p.main) == [CallFunction(p.main)] + [Exit];
    CodeAtSplit(image.code, 0, [CallFunction(p.main)], [Exit]);
    forall f | 0 <= f < |p.functions|
      ensures CompiledFunction(image, layouts[f], f)
    {
      FunctionsAt(t, layouts, p.functions, image.code, 2, f);
      FunctionFirst(t, layouts, p.functions, f);
      CodeAtSplit(image.code, EntryOf(t, layouts, p.functions, f, 2),
                  FunctionCode(t, layouts[f], f, p.functions[f]), FunctionsCode(t, layouts, p.functions, f + 1));
    }
  }

  lemma WholeCode(code: seq<Instr>)
    ensures CodeAt(code, 0, code)
  {}

  lemma FunctionFirst(t: Target, layouts: seq<Layout>, functions: seq<Function>, f: nat)
    requires |layouts| == |functions| && f < |functions|
    ensures FunctionsCode(t, layouts, functions, f) ==
      FunctionCode(t, layouts[f], f, functions[f]) + FunctionsCode(t, layouts, functions, f + 1)
  {}

  // ----- from source to machine -----

  /** What `main` does, given `fuel` calls. */
  function Meaning(p: Program, fuel: nat, out: seq<Event>): Outcome
    requires p.main < |p.functions|
  {
    RunFunction(p, fuel, p.main, [], out)
  }

  /** The image, started at its first instruction, has done what the outcome says after n steps. */
  ghost predicate Realises(image: Image, m: Machine, outcome: Outcome, fuel: nat, n: nat) {
    var s := Run(image, Running(0, m), n);
    match outcome
    case Value(v, out) => s == Exited(v, out)
    case Trap(kind, out) => s == Trapped(kind, out)
    case Timeout => s.Running? && n >= fuel
    case Stuck => true
  }

  lemma ExitStep(image: Image, m: Machine, pc: int)
    requires CodeAt(image.code, pc, [Exit])
    ensures Run(image, Running(pc, m), 1) == Exited(Get(m.regs, 0), m.out)
  {
    assert image.code[pc] == [Exit][0];
    var s := Exited(Get(m.regs, 0), m.out);
    assert Step(image, Running(pc, m)) == s;
    assert Run(image, s, 0) == s;
  }

  /** Started in any state, the image of a program does what the program means. */
  lemma ProgramCorrect(t: Target, p: Program, layouts: seq<Layout>, junk: Junk, fuel: nat, m: Machine) returns (n: nat)
    requires Buildable(t, p, layouts)
    ensures Realises(ProgramImage(t, p, layouts, junk), m, Meaning(p, fuel, m.out), fuel, n)
  {
    hide Compiled, CodeAt, ProgramImage, RunFunction, Run, Returned;
    var image := ProgramImage(t, p, layouts, junk);
    ImageCompiled(t, p, layouts, junk);
    ImageFields(t, p, layouts, junk);
    CallStep(image, p.main, 0, m);
    var m0 := PushReturn(t, m, 1);
    PushKeepsTrace(t, m, 1);
    PushKeepsArguments(t, m, 1, []);
    var n1 := FunctionCorrect(image, layouts, fuel, p.main, [], m0, 1);
    RunPlus(image, Running(0, m), 1, n1);
    n := 1 + n1;
    var outcome := Meaning(p, fuel, m.out);
    if outcome.Value? {
      var m1 := Run(image, Running(image.entry[p.main], m0), n1).m;
      ExitStep(image, m1, 1);
      RunPlus(image, Running(0, m), 1 + n1, 1);
      ReturnedWord(t, m0, m1, outcome.word);
      n := 1 + n1 + 1;
    }
  }

  lemma ReturnedWord(t: Target, m0: Machine, m: Machine, v: Word)
    requires Returned(t, m0, m, v)
    ensures Get(m.regs, 0) == v
  {}

  lemma ImageFields(t: Target, p: Program, layouts: seq<Layout>, junk: Junk)
    requires Buildable(t, p, layouts)
    ensures var image := ProgramImage(t, p, layouts, junk);
      image.target == t && image.program == p && |image.entry| == |p.functions| && p.main < |p.functions| == |layouts|
    ensures p.functions[p.main].parameters == 0
  {}

  // ----- and back -----

  lemma {:induction false} Halted(image: Image, s: State, n: nat)
    requires !s.Running?
    ensures Run(image, s, n) == s
    decreases n
  {
    if n > 0 { Halted(image, s, n - 1); }
  }

  /** Once stopped, stopped for good. */
  lemma StaysHalted(image: Image, s: State, n: nat, k: nat)
    requires !Run(image, s, n).Running? && n <= k
    ensures Run(image, s, k) == Run(image, s, n)
  {
    RunPlus(image, s, n, k - n);
    Halted(image, Run(image, s, n), k - n);
  }

  /** An image stops in one way only. */
  lemma HaltsOnce(image: Image, s: State, n: nat, k: nat)
    requires !Run(image, s, n).Running? && !Run(image, s, k).Running?
    ensures Run(image, s, n) == Run(image, s, k)
  {
    if n <= k { StaysHalted(image, s, n, k); } else { StaysHalted(image, s, k, n); }
  }

  ghost predicate ExitsWith(image: Image, m: Machine, v: Word, out: seq<Event>) {
    exists n: nat :: Run(image, Running(0, m), n) == Exited(v, out)
  }

  ghost predicate TrapsWith(image: Image, m: Machine, kind: TrapKind, out: seq<Event>) {
    exists n: nat :: Run(image, Running(0, m), n) == Trapped(kind, out)
  }

  ghost predicate RunsForever(image: Image, m: Machine) {
    forall n: nat :: Run(image, Running(0, m), n).Running?
  }

  ghost predicate MeansValue(p: Program, v: Word, start: seq<Event>, out: seq<Event>)
    requires p.main < |p.functions|
  {
    exists fuel: nat :: Meaning(p, fuel, start) == Value(v, out)
  }

  ghost predicate MeansTrap(p: Program, kind: TrapKind, start: seq<Event>, out: seq<Event>)
    requires p.main < |p.functions|
  {
    exists fuel: nat :: Meaning(p, fuel, start) == Trap(kind, out)
  }

  ghost predicate MeansNothing(p: Program, start: seq<Event>)
    requires p.main < |p.functions|
  {
    forall fuel: nat :: Meaning(p, fuel, start) == Timeout
  }

  /** A machine that has stopped stopped as the source says it does. */
  lemma HaltedAsMeant(t: Target, p: Program, signatures: seq<Signature>, layouts: seq<Layout>, junk: Junk, m: Machine, n: nat)
    returns (fuel: nat)
    requires Buildable(t, p, layouts) && WellTyped(p, signatures)
    requires !Run(ProgramImage(t, p, layouts, junk), Running(0, m), n).Running?
    ensures match Meaning(p, fuel, m.out)
            case Value(v, out) => Run(ProgramImage(t, p, layouts, junk), Running(0, m), n) == Exited(v, out)
            case Trap(kind, out) => Run(ProgramImage(t, p, layouts, junk), Running(0, m), n) == Trapped(kind, out)
            case _ => false
  {
    MainExists(t, p, layouts);
    hide ProgramImage, RunFunction, Run, Buildable, WellTyped;
    var image := ProgramImage(t, p, layouts, junk);
    fuel := n + 1;
    var k := ProgramCorrect(t, p, layouts, junk, fuel, m);
    MainSane(p, signatures, fuel, m.out);
    var outcome := Meaning(p, fuel, m.out);
    if outcome == Timeout {
      StaysHalted(image, Running(0, m), n, k);
      assert false;
    } else {
      HaltsOnce(image, Running(0, m), n, k);
    }
  }

  lemma MainSane(p: Program, signatures: seq<Signature>, fuel: nat, out: seq<Event>)
    requires WellTyped(p, signatures)
    ensures !Meaning(p, fuel, out).Stuck?
  {
    FunctionSane(p, signatures, fuel, p.main, [], out);
  }

  /**
   Compilation is exact: the image exits with a result, traps, or runs forever
   precisely when the program evaluates to that result, traps with that kind,
   or never finishes, and with the same trace; it never crashes.
   */
  lemma CompilationIsExact(t: Target, p: Program, signatures: seq<Signature>, layouts: seq<Layout>, junk: Junk, m: Machine)
    requires Buildable(t, p, layouts) && WellTyped(p, signatures)
    ensures p.main < |p.functions|
    ensures forall v, out :: ExitsWith(ProgramImage(t, p, layouts, junk), m, v, out) <==> MeansValue(p, v, m.out, out)
    ensures forall kind, out :: TrapsWith(ProgramImage(t, p, layouts, junk), m, kind, out) <==> MeansTrap(p, kind, m.out, out)
    ensures RunsForever(ProgramImage(t, p, layouts, junk), m) <==> MeansNothing(p, m.out)
    ensures forall n: nat :: !Run(ProgramImage(t, p, layouts, junk), Running(0, m), n).Crashed?
  {
    hide ProgramImage, Meaning, Run, Buildable, WellTyped;
    MainExists(t, p, layouts);
    var image := ProgramImage(t, p, layouts, junk);
    forall v, out
      ensures ExitsWith(image, m, v, out) <==> MeansValue(p, v, m.out, out)
    {
      if ExitsWith(image, m, v, out) {
        var n: nat :| Run(image, Running(0, m), n) == Exited(v, out);
        var fuel := HaltedAsMeant(t, p, signatures, layouts, junk, m, n);
      }
      if MeansValue(p, v, m.out, out) {
        var fuel: nat :| Meaning(p, fuel, m.out) == Value(v, out);
        var n := ProgramCorrect(t, p, layouts, junk, fuel, m);
      }
    }
    forall kind, out
      ensures TrapsWith(image, m, kind, out) <==> MeansTrap(p, kind, m.out, out)
    {
      if TrapsWith(image, m, kind, out) {
        var n: nat :| Run(image, Running(0, m), n) == Trapped(kind, out);
        var fuel := HaltedAsMeant(t, p, signatures, layouts, junk, m, n);
      }
      if MeansTrap(p, kind, m.out, out) {
        var fuel: nat :| Meaning(p, fuel, m.out) == Trap(kind, out);
        var n := ProgramCorrect(t, p, layouts, junk, fuel, m);
      }
    }
    Divergence(t, p, signatures, layouts, junk, m);
    forall n: nat
      ensures !Run(image, Running(0, m), n).Crashed?
    {
      if !Run(image, Running(0, m), n).Running? {
        var fuel := HaltedAsMeant(t, p, signatures, layouts, junk, m, n);
      }
    }
  }

  lemma MainExists(t: Target, p: Program, layouts: seq<Layout>)
    requires Buildable(t, p, layouts)
    ensures p.main < |p.functions|
  {}

  lemma Divergence(t: Target, p: Program, signatures: seq<Signature>, layouts: seq<Layout>, junk: Junk, m: Machine)
    requires Buildable(t, p, layouts) && WellTyped(p, signatures) && p.main < |p.functions|
    ensures RunsForever(ProgramImage(t, p, layouts, junk), m) <==> MeansNothing(p, m.out)
  {
    hide ProgramImage, Meaning, Run, Buildable, WellTyped;
    var image := ProgramImage(t, p, layouts, junk);
    if RunsForever(image, m) {
      forall fuel: nat
        ensures Meaning(p, fuel, m.out) == Timeout
      {
        var n := ProgramCorrect(t, p, layouts, junk, fuel, m);
        MainSane(p, signatures, fuel, m.out);
        assert Run(image, Running(0, m), n).Running?;
      }
    }
    if MeansNothing(p, m.out) {
      forall n: nat
        ensures Run(image, Running(0, m), n).Running?
      {
        if !Run(image, Running(0, m), n).Running? {
          var fuel := HaltedAsMeant(t, p, signatures, layouts, junk, m, n);
          assert false;
        }
      }
    }
  }

  /** One result, one trace, one trap, or no end, whichever target the program is compiled for. */
  lemma TargetsAgree(p: Program, signatures: seq<Signature>, x64: seq<Layout>, a64: seq<Layout>, junk: Junk, junk': Junk,
      m: Machine, m': Machine)
    requires Buildable(X64, p, x64) && Buildable(A64, p, a64) && WellTyped(p, signatures) && m'.out == m.out
    ensures forall v, out ::
      ExitsWith(ProgramImage(X64, p, x64, junk), m, v, out) <==> ExitsWith(ProgramImage(A64, p, a64, junk'), m', v, out)
    ensures forall kind, out ::
      TrapsWith(ProgramImage(X64, p, x64, junk), m, kind, out) <==> TrapsWith(ProgramImage(A64, p, a64, junk'), m', kind, out)
    ensures RunsForever(ProgramImage(X64, p, x64, junk), m) <==> RunsForever(ProgramImage(A64, p, a64, junk'), m')
  {
    hide ProgramImage, ExitsWith, TrapsWith, RunsForever, MeansValue, MeansTrap, MeansNothing, Buildable, WellTyped;
    CompilationIsExact(X64, p, signatures, x64, junk, m);
    CompilationIsExact(A64, p, signatures, a64, junk', m');
    forall v, out
      ensures ExitsWith(ProgramImage(X64, p, x64, junk), m, v, out) <==> ExitsWith(ProgramImage(A64, p, a64, junk'), m', v, out)
    {
      assert ExitsWith(ProgramImage(X64, p, x64, junk), m, v, out) <==> MeansValue(p, v, m.out, out);
      assert ExitsWith(ProgramImage(A64, p, a64, junk'), m', v, out) <==> MeansValue(p, v, m.out, out);
    }
    forall kind, out
      ensures TrapsWith(ProgramImage(X64, p, x64, junk), m, kind, out) <==> TrapsWith(ProgramImage(A64, p, a64, junk'), m', kind, out)
    {
      assert TrapsWith(ProgramImage(X64, p, x64, junk), m, kind, out) <==> MeansTrap(p, kind, m.out, out);
      assert TrapsWith(ProgramImage(A64, p, a64, junk'), m', kind, out) <==> MeansTrap(p, kind, m.out, out);
    }
  }
}
