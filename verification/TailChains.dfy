/** Chains of tail calls: each hop is the source's, and however long the chain, it runs in the first caller's stack. */
module TailChains {
  import opened Words
  import opened Wrappers
  import opened Core
  import opened Targets
  import opened Machine
  import opened Lowering
  import opened Blocks
  import opened Frames
  import opened Pressure
  import opened Preservation
  import opened Correctness
  import opened Activation
  import opened Execution

  // ----- the tail call an activation reaches -----

  datatype Hop = Hop(callee: nat, arguments: seq<Word>, out: seq<Event>)

  datatype Step = Step(env: Env, out: seq<Event>)

  /** A statement that lets the body go on, and what it leaves. */
  function FallsTo(p: Program, fuel: nat, s: Stmt, env: Env, out: seq<Event>): Option<Step> {
    match s
    case IfReturn(condition, _) =>
      (match Eval(p, fuel, condition, env, out)
       case Value(word, out') => if word == Int(0) then Some(Step(env, out')) else None
       case _ => None)
    case ReturnStmt(_) => None
    case PrintStmt(value) =>
      (match Eval(p, fuel, value, env, out)
       case Value(word, out') => Some(Step(env, out' + [Print(word)]))
       case _ => None)
    case Let(slot, value) =>
      (match Eval(p, fuel, value, env, out)
       case Value(word, out') => Some(Step(env[slot := word], out'))
       case _ => None)
    case Evaluate(value) =>
      (match Eval(p, fuel, value, env, out)
       case Value(_, out') => Some(Step(env, out'))
       case _ => None)
  }

  /** A returned call whose arguments all have values. */
  function HopOf(p: Program, fuel: nat, value: Expr, env: Env, out: seq<Event>): Option<Hop> {
    if !value.Call? || value.function_ >= |p.functions| then None
    else
      match EvalWritten(p, fuel, value, 0, env, out)
      case Values(words, out') => Some(Hop(value.function_, Place(value.order, words), out'))
      case Aborted(_) => None
  }

  /** The hop the statements from the i-th on end in, if they end in one. */
  function HopFrom(p: Program, fuel: nat, body: seq<Stmt>, i: nat, env: Env, out: seq<Event>): Option<Hop>
    decreases |body| - i
  {
    if i >= |body| then None
    else
      var next := FallsTo(p, fuel, body[i], env, out);
      if next.Some? then HopFrom(p, fuel, body, i + 1, next.value.env, next.value.out)
      else
        match body[i]
        case ReturnStmt(value) => HopOf(p, fuel, value, env, out)
        case IfReturn(condition, value) =>
          (match Eval(p, fuel, condition, env, out)
           case Value(word, out') => if word.Int? && word.n != 0 then HopOf(p, fuel, value, env, out') else None
           case _ => None)
        case _ => None
  }

  /** A hop hands the whole result over: the function means what its tail callee means. */
  lemma {:induction false} HopIsResult(p: Program, fuel: nat, body: seq<Stmt>, i: nat, env: Env, out: seq<Event>)
    requires fuel > 0 && HopFrom(p, fuel, body, i, env, out).Some?
    ensures var hop := HopFrom(p, fuel, body, i, env, out).value;
      hop.callee < |p.functions| && RunFrom(p, fuel, body, i, env, out) == RunFunction(p, fuel - 1, hop.callee, hop.arguments, hop.out)
    decreases |body| - i
  {
    hide RunFunction, EvalWritten, Place;
    var next := FallsTo(p, fuel, body[i], env, out);
    if next.Some? {
      HopIsResult(p, fuel, body, i + 1, next.value.env, next.value.out);
    }
  }

  // ----- statements that fall through -----

  lemma ExprFalls(image: Image, layouts: seq<Layout>, f: nat, fuel: nat, value: Expr, env: Env, m0: Machine, m: Machine, pc: int)
    returns (n: nat, m': Machine)
    requires Compiled(image, layouts) && f < |layouts| && Active(image, layouts[f], env, m0, m)
    requires Lowerable(image, layouts[f], value, 0) && LayoutOk(image, layouts[f])
    requires CodeAt(image.code, pc, ExprCode(image.target, layouts[f], value, 0))
    requires Eval(image.program, fuel, value, env, m.out).Value?
    ensures Run(image, Running(pc, m), n) == Running(pc + |ExprCode(image.target, layouts[f], value, 0)|, m')
    ensures m'.out == Eval(image.program, fuel, value, env, m.out).out
    ensures Read(image.target, m', EvalOperand(layouts[f], 0)) == Eval(image.program, fuel, value, env, m.out).word
    ensures Active(image, layouts[f], env, m0, m')
  {
    hide Same, EvalWrites, Run, Compiled, InBody, Bindings, Sound, EvalOperand, CodeAt, Active, Ready, Lowerable, Eval, ExprCode;
    ActiveReady(image, layouts[f], env, m0, m);
    n := ExprCorrect(image, layouts, layouts[f], fuel, value, 0, env, m, pc);
    m' := Run(image, Running(pc, m), n).m;
    LowerableBindings(image, layouts[f], value, 0);
    ActiveKept(image, layouts[f], env, m0, m, m', 0, Calls(value));
  }

  /** What it takes to continue after statement i. */
  ghost predicate Resumes(image: Image, l: Layout, f: nat, i: nat, at: nat, env: Env, m0: Machine, m: Machine, pc: int, m': Machine, n: nat)
    requires f < |image.program.functions| && f < |image.entry|
  {
    && Run(image, Running(pc, m), n) == Running(BodyStart(image, l, f) + at, m')
    && Active(image, l, env, m0, m') && BodySite(image, l, f, i, at)
  }

  lemma PrintFalls(image: Image, layouts: seq<Layout>, f: nat, fuel: nat, i: nat, at: nat, env: Env, m0: Machine, m: Machine)
    returns (n: nat, m': Machine, at': nat)
    requires Compiled(image, layouts) && f < |layouts| && Active(image, layouts[f], env, m0, m)
    requires f < |image.program.functions| && f < |image.entry| && BodySite(image, layouts[f], f, i, at)
    requires i < |image.program.functions[f].body| && image.program.functions[f].body[i].PrintStmt?
    requires FallsTo(image.program, fuel, image.program.functions[f].body[i], env, m.out).Some?
    ensures var next := FallsTo(image.program, fuel, image.program.functions[f].body[i], env, m.out).value;
      && Resumes(image, layouts[f], f, i + 1, at', next.env, m0, m, BodyStart(image, layouts[f], f) + at, m', n)
      && m'.out == next.out
  {
    hide Same, EvalWrites, Run, Compiled, BodyStart, InBody, Bindings, Sound, EvalOperand, CodeAt, Active, Ready,
         Lowerable, BodySite, Eval, ExprCode, Move;
    var t, l := image.target, layouts[f];
    var pc := BodyStart(image, l, f) + at;
    var value := image.program.functions[f].body[i].value;
    var first := ExprCode(t, l, value, 0);
    var last := Move(t, Reg(ArgumentRegister(t, 0)), EvalOperand(l, 0)) + [CallPrint];
    BodySiteNext(image, l, f, i, at);
    StmtLowerable(image, layouts, f, i);
    CodeAtSplit(image.code, pc, first, last);
    var n1, m1 := ExprFalls(image, layouts, f, fuel, value, env, m0, m, pc);
    LowerableDepth(image, l, value);
    var n2, m2 := PrintRuns(image, l, env, m0, m1, pc + |first|);
    RunPlus(image, Running(pc, m), n1, n2);
    n, m', at' := n1 + n2, m2, at + |first + last|;
  }

  lemma LowerableDepth(image: Image, l: Layout, e: Expr)
    requires Lowerable(image, l, e, 0)
    ensures 0 < l.evalDepth
  {
    LowerableBindings(image, l, e, 0);
  }

  lemma LetFalls(image: Image, layouts: seq<Layout>, f: nat, fuel: nat, i: nat, at: nat, env: Env, m0: Machine, m: Machine)
    returns (n: nat, m': Machine, at': nat)
    requires Compiled(image, layouts) && f < |layouts| && Active(image, layouts[f], env, m0, m)
    requires f < |image.program.functions| && f < |image.entry| && BodySite(image, layouts[f], f, i, at)
    requires i < |image.program.functions[f].body| && image.program.functions[f].body[i].Let?
    requires FallsTo(image.program, fuel, image.program.functions[f].body[i], env, m.out).Some?
    ensures var next := FallsTo(image.program, fuel, image.program.functions[f].body[i], env, m.out).value;
      && Resumes(image, layouts[f], f, i + 1, at', next.env, m0, m, BodyStart(image, layouts[f], f) + at, m', n)
      && m'.out == next.out
  {
    hide Same, EvalWrites, Run, Compiled, BodyStart, InBody, Bindings, Sound, EvalOperand, CodeAt, Active, Ready,
         Lowerable, BodySite, Eval, ExprCode, Move, ValueOperand;
    var t, l := image.target, layouts[f];
    var pc := BodyStart(image, l, f) + at;
    var slot, value := image.program.functions[f].body[i].slot, image.program.functions[f].body[i].value;
    var first := ExprCode(t, l, value, 0);
    var last := Move(t, ValueOperand(l, slot), EvalOperand(l, 0));
    BodySiteNext(image, l, f, i, at);
    StmtLowerable(image, layouts, f, i);
    CodeAtSplit(image.code, pc, first, last);
    var n1, m1 := ExprFalls(image, layouts, f, fuel, value, env, m0, m, pc);
    LowerableDepth(image, l, value);
    var n2, m2 := LetRuns(image, l, env, slot, m0, m1, pc + |first|);
    RunPlus(image, Running(pc, m), n1, n2);
    n, m', at' := n1 + n2, m2, at + |first + last|;
  }

  lemma EvaluateFalls(image: Image, layouts: seq<Layout>, f: nat, fuel: nat, i: nat, at: nat, env: Env, m0: Machine, m: Machine)
    returns (n: nat, m': Machine, at': nat)
    requires Compiled(image, layouts) && f < |layouts| && Active(image, layouts[f], env, m0, m)
    requires f < |image.program.functions| && f < |image.entry| && BodySite(image, layouts[f], f, i, at)
    requires i < |image.program.functions[f].body| && image.program.functions[f].body[i].Evaluate?
    requires FallsTo(image.program, fuel, image.program.functions[f].body[i], env, m.out).Some?
    ensures var next := FallsTo(image.program, fuel, image.program.functions[f].body[i], env, m.out).value;
      && Resumes(image, layouts[f], f, i + 1, at', next.env, m0, m, BodyStart(image, layouts[f], f) + at, m', n)
      && m'.out == next.out
  {
    hide Same, EvalWrites, Run, Compiled, BodyStart, InBody, Bindings, Sound, EvalOperand, CodeAt, Active, Ready,
         Lowerable, BodySite, Eval, ExprCode;
    var t, l := image.target, layouts[f];
    var value := image.program.functions[f].body[i].value;
    BodySiteNext(image, l, f, i, at);
    StmtLowerable(image, layouts, f, i);
    n, m' := ExprFalls(image, layouts, f, fuel, value, env, m0, m, BodyStart(image, l, f) + at);
    at' := at + |ExprCode(t, l, value, 0)|;
  }

  // ----- guards -----

  /** A guard whose condition has a value leaves the activation on the side the value chose. */
  lemma GuardChooses(image: Image, layouts: seq<Layout>, f: nat, fuel: nat, i: nat, at: nat, env: Env, m0: Machine, m: Machine)
    returns (n: nat, m': Machine)
    requires Compiled(image, layouts) && f < |layouts| && Active(image, layouts[f], env, m0, m)
    requires f < |image.program.functions| && f < |image.entry| && BodySite(image, layouts[f], f, i, at)
    requires i < |image.program.functions[f].body| && image.program.functions[f].body[i].IfReturn?
    requires var c := Eval(image.program, fuel, image.program.functions[f].body[i].condition, env, m.out); c.Value? && c.word.Int?
    ensures var t, l, body := image.target, layouts[f], image.program.functions[f].body;
      var e, s := EpilogueAt(t, l, f, body), body[i];
      var c := Eval(image.program, fuel, s.condition, env, m.out);
      var guard := GuardCode(t, l, s.condition);
      var guarded := ReturnCode(t, l, f, s.value, at + |guard| + 1, e, false);
      && Run(image, Running(BodyStart(image, l, f) + at, m), n)
         == Running(BodyStart(image, l, f) + at + |guard| + 1 + (if c.word.n == 0 then |guarded| else 0), m')
      && m'.out == c.out && Active(image, l, env, m0, m')
      && CodeAt(image.code, BodyStart(image, l, f) + at + |guard| + 1, guarded)
      && BodySite(image, l, f, i + 1, at + |guard| + 1 + |guarded|)
  {
    hide Same, EvalWrites, Run, Compiled, BodyStart, InBody, Bindings, Sound, EvalOperand, CodeAt, Active, Ready,
         ReturnCode, Lowerable, EpilogueAt, GuardCode, SkipBranch, Decides, BodySite, Eval;
    var t, l, body := image.target, layouts[f], image.program.functions[f].body;
    var e := EpilogueAt(t, l, f, body);
    var pc := BodyStart(image, l, f) + at;
    var condition, value := body[i].condition, body[i].value;
    var guard := GuardCode(t, l, condition);
    var guarded := ReturnCode(t, l, f, value, at + |guard| + 1, e, false);
    var skip := [SkipBranch(t, l, condition, |guarded|)];
    BodySiteNext(image, l, f, i, at);
    StmtLowerable(image, layouts, f, i);
    CodeAtSplit(image.code, pc, guard, skip + guarded);
    CodeAtSplit(image.code, pc + |guard|, skip, guarded);
    ActiveReady(image, l, env, m0, m);
    var n1 := GuardCorrect(image, layouts, l, fuel, condition, env, m, pc);
    var c := Eval(image.program, fuel, condition, env, m.out);
    m' := Run(image, Running(pc, m), n1).m;
    LowerableBindings(image, l, condition, 0);
    ActiveKept(image, l, env, m0, m, m', 0, Calls(condition));
    SkipRuns(image, l, condition, |guarded|, m', pc + |guard|, c.word.n);
    RunPlus(image, Running(pc, m), n1, 1);
    n := n1 + 1;
    assert |guard + (skip + guarded)| == |guard| + 1 + |guarded|;
  }

  // ----- one hop -----

  /** Where a hop out of function f arrives: its own body again, or the entry of another function with the frame gone. */
  ghost predicate Lands(image: Image, layouts: seq<Layout>, f: nat, hop: Hop, m0: Machine, pc: int, m: Machine)
    requires f < |layouts| && f < |image.program.functions| && f < |image.entry|
  {
    && m.out == hop.out
    && if hop.callee == f then
         pc == BodyStart(image, layouts[f], f) && Active(image, layouts[f], Bind(hop.arguments), m0, m)
       else
         && hop.callee < |image.entry| && pc == image.entry[hop.callee] && Unwound(image.target, m0, m)
         && forall s :: 0 <= s < |hop.arguments| ==> Get(m.regs, ArgumentRegister(image.target, s)) == hop.arguments[s]
  }

  lemma TailLands(image: Image, layouts: seq<Layout>, f: nat, fuel: nat, call: Expr, at: nat, env: Env, m0: Machine, m: Machine)
    returns (n: nat, pc': int, m': Machine)
    requires Compiled(image, layouts) && f < |layouts| && Active(image, layouts[f], env, m0, m)
    requires f < |image.program.functions| && f < |image.entry| && Lowerable(image, layouts[f], call, 0)
    requires HopOf(image.program, fuel, call, env, m.out).Some?
    requires CodeAt(image.code, BodyStart(image, layouts[f], f) + at, TailCode(image.target, layouts[f], f, call, at))
    ensures Run(image, Running(BodyStart(image, layouts[f], f) + at, m), n) == Running(pc', m')
    ensures Lands(image, layouts, f, HopOf(image.program, fuel, call, env, m.out).value, m0, pc', m')
  {
    hide Same, EvalWrites, Run, Compiled, Lowerable, BodyStart, ArgumentsCode, MoveAll, Move, InBody, Bindings, Sound, EvalOperand,
         TailCode, CodeAt, EvalWritten, IsPermutation, Ready, Lands, Place, TailRest;
    var t, l := image.target, layouts[f];
    var pc := BodyStart(image, l, f) + at;
    TailFacts(image, layouts, f, call);
    TailSplit(image, l, f, call, at, pc);
    ArgumentsLowerable(image, l, call, 0);
    var n1 := ArgumentsCorrect(image, layouts, l, fuel, call, 0, 0, env, m, pc);
    var arguments := EvalWritten(image.program, fuel, call, 0, env, m.out);
    var m1 := Run(image, Running(pc, m), n1).m;
    WritesWiden(l, 0, true, 0 + 0, CallsFrom(call, 0));
    SameWider(t, m, m1, EvalWrites(l, 0 + 0, CallsFrom(call, 0)), EvalWrites(l, 0, true));
    ActiveKept(image, l, env, m0, m, m1, 0, true);
    ArgumentsAtZero(image, l, call, arguments.words, m1);
    var n2;
    n2, pc', m' := ArgumentsLand(image, layouts, f, call, at, arguments.words, env, m0, m1);
    RunPlus(image, Running(pc, m), n1, n2);
    n := n1 + n2;
  }

  lemma ArgumentsLand(image: Image, layouts: seq<Layout>, f: nat, call: Expr, at: nat, words: seq<Word>, env: Env, m0: Machine, m: Machine)
    returns (n: nat, pc': int, m': Machine)
    requires call.Call? && Compiled(image, layouts) && f < |layouts| && Active(image, layouts[f], env, m0, m)
    requires f < |image.program.functions| && f < |image.entry| && Lowerable(image, layouts[f], call, 0)
    requires |words| == WrittenCount(call) && call.function_ < |image.program.functions|
    requires forall j :: 0 <= j < |words| ==> Read(image.target, m, EvalOperand(layouts[f], j)) == words[j]
    requires CodeAt(image.code, BodyStart(image, layouts[f], f) + at + |ArgumentsCode(image.target, layouts[f], call, 0, 0)|,
                    TailRest(image.target, layouts[f], f, call, at))
    ensures Run(image, Running(BodyStart(image, layouts[f], f) + at + |ArgumentsCode(image.target, layouts[f], call, 0, 0)|, m), n)
         == Running(pc', m')
    ensures Lands(image, layouts, f, Hop(call.function_, Place(call.order, words), m.out), m0, pc', m')
  {
    hide Same, EvalWrites, Run, Compiled, Lowerable, BodyStart, ArgumentsCode, MoveAll, Move, InBody, Bindings, Sound, EvalOperand,
         CodeAt, IsPermutation, Active, SelfMoves, BoundaryMoves, TeardownCode, Bind, Place, Unwound, ArgumentRegister;
    var t, l := image.target, layouts[f];
    var start := BodyStart(image, l, f);
    var pc := start + at + |ArgumentsCode(t, l, call, 0, 0)|;
    TailFacts(image, layouts, f, call);
    if call.function_ == f {
      var moves := MoveAll(t, SelfMoves(l, call.order));
      var jump := [Jmp(-(at + |ArgumentsCode(t, l, call, 0, 0)| + |moves| + 1))];
      CodeAtSplit(image.code, pc, moves, jump);
      var n1, m1 := SelfMovesRun(image, l, env, call.order, words, m0, m, pc);
      BackJump(image, jump[0].disp, m1, pc + |moves|, start);
      RunPlus(image, Running(pc, m), n1, 1);
      n, pc', m' := n1 + 1, start, m1;
    } else {
      var leave := MoveAll(t, BoundaryMoves(t, l, call.order, 0)) + TeardownCode(t, l);
      CodeAtSplit(image.code, pc, leave, [TailJump(call.function_)]);
      var n1, m1 := HandOver(image, l, call.order, words, env, m0, m, pc);
      TailJumpStep(image, call.function_, pc + |leave|, m1);
      PlaceSize(call.order, words);
      RunPlus(image, Running(pc, m), n1, 1);
      n, pc', m' := n1 + 1, image.entry[call.function_], m1;
    }
  }

  /** A body that ends in a tail call gets there, from the statement it is at. */
  lemma {:induction false} BodyLands(image: Image, layouts: seq<Layout>, f: nat, fuel: nat, i: nat, at: nat, env: Env, m0: Machine, m: Machine)
    returns (n: nat, pc': int, m': Machine)
    requires Compiled(image, layouts) && f < |layouts| && Active(image, layouts[f], env, m0, m)
    requires f < |image.program.functions| && f < |image.entry| && i <= |image.program.functions[f].body|
    requires BodySite(image, layouts[f], f, i, at)
    requires HopFrom(image.program, fuel, image.program.functions[f].body, i, env, m.out).Some?
    ensures Run(image, Running(BodyStart(image, layouts[f], f) + at, m), n) == Running(pc', m')
    ensures Lands(image, layouts, f, HopFrom(image.program, fuel, image.program.functions[f].body, i, env, m.out).value, m0, pc', m')
    decreases |image.program.functions[f].body| - i
  {
    hide Run, Compiled, BodyStart, Active, BodySite, Eval, EvalWritten, Lands, FallsTo, HopOf, StmtCode;
    var body := image.program.functions[f].body;
    var next := FallsTo(image.program, fuel, body[i], env, m.out);
    if next.Some? {
      var n1, m1, at1 := StatementFalls(image, layouts, f, fuel, i, at, env, m0, m);
      var n2;
      n2, pc', m' := BodyLands(image, layouts, f, fuel, i + 1, at1, next.value.env, m0, m1);
      RunPlus(image, Running(BodyStart(image, layouts[f], f) + at, m), n1, n2);
      n := n1 + n2;
    } else {
      n, pc', m' := StatementLands(image, layouts, f, fuel, i, at, env, m0, m);
    }
  }

  lemma StatementFalls(image: Image, layouts: seq<Layout>, f: nat, fuel: nat, i: nat, at: nat, env: Env, m0: Machine, m: Machine)
    returns (n: nat, m': Machine, at': nat)
    requires Compiled(image, layouts) && f < |layouts| && Active(image, layouts[f], env, m0, m)
    requires f < |image.program.functions| && f < |image.entry| && BodySite(image, layouts[f], f, i, at)
    requires i < |image.program.functions[f].body|
    requires FallsTo(image.program, fuel, image.program.functions[f].body[i], env, m.out).Some?
    ensures var next := FallsTo(image.program, fuel, image.program.functions[f].body[i], env, m.out).value;
      && Resumes(image, layouts[f], f, i + 1, at', next.env, m0, m, BodyStart(image, layouts[f], f) + at, m', n)
      && m'.out == next.out
  {
    hide Run, Compiled, BodyStart, Active, BodySite, Eval, GuardCode, ReturnCode, EpilogueAt;
    match image.program.functions[f].body[i]
    case PrintStmt(_) => n, m', at' := PrintFalls(image, layouts, f, fuel, i, at, env, m0, m);
    case Let(_, _) => n, m', at' := LetFalls(image, layouts, f, fuel, i, at, env, m0, m);
    case Evaluate(_) => n, m', at' := EvaluateFalls(image, layouts, f, fuel, i, at, env, m0, m);
    case IfReturn(condition, value) =>
      n, m' := GuardChooses(image, layouts, f, fuel, i, at, env, m0, m);
      var guard := GuardCode(image.target, layouts[f], condition);
      var e := EpilogueAt(image.target, layouts[f], f, image.program.functions[f].body);
      at' := at + |guard| + 1 + |ReturnCode(image.target, layouts[f], f, value, at + |guard| + 1, e, false)|;
  }

  lemma StatementLands(image: Image, layouts: seq<Layout>, f: nat, fuel: nat, i: nat, at: nat, env: Env, m0: Machine, m: Machine)
    returns (n: nat, pc': int, m': Machine)
    requires Compiled(image, layouts) && f < |layouts| && Active(image, layouts[f], env, m0, m)
    requires f < |image.program.functions| && f < |image.entry| && BodySite(image, layouts[f], f, i, at)
    requires i < |image.program.functions[f].body|
    requires FallsTo(image.program, fuel, image.program.functions[f].body[i], env, m.out).None?
    requires HopFrom(image.program, fuel, image.program.functions[f].body, i, env, m.out).Some?
    ensures Run(image, Running(BodyStart(image, layouts[f], f) + at, m), n) == Running(pc', m')
    ensures Lands(image, layouts, f, HopFrom(image.program, fuel, image.program.functions[f].body, i, env, m.out).value, m0, pc', m')
  {
    hide Run, Compiled, BodyStart, Active, BodySite, Eval, EvalWritten, Lands, GuardCode, EpilogueAt, TailCode, ExprCode, Move, Lowerable;
    var t, l := image.target, layouts[f];
    var s := image.program.functions[f].body[i];
    StmtLowerable(image, layouts, f, i);
    if s.IfReturn? {
      var n1, m1 := GuardChooses(image, layouts, f, fuel, i, at, env, m0, m);
      var at1 := at + |GuardCode(t, l, s.condition)| + 1;
      var n2;
      n2, pc', m' := TailLands(image, layouts, f, fuel, s.value, at1, env, m0, m1);
      RunPlus(image, Running(BodyStart(image, l, f) + at, m), n1, n2);
      n := n1 + n2;
    } else {
      BodySiteNext(image, l, f, i, at);
      n, pc', m' := TailLands(image, layouts, f, fuel, s.value, at, env, m0, m);
    }
  }

  // ----- chains -----

  /** Consecutive hops, each the tail call of the activation the one before starts. */
  predicate IsChain(p: Program, fuel: nat, f: nat, arguments: seq<Word>, out: seq<Event>, hops: seq<Hop>)
    requires f < |p.functions|
    decreases |hops|
  {
    hops == [] ||
      (&& HopFrom(p, fuel, p.functions[f].body, 0, Bind(arguments), out) == Some(hops[0])
       && hops[0].callee < |p.functions|
       && IsChain(p, fuel, hops[0].callee, hops[0].arguments, hops[0].out, hops[1..]))
  }

  lemma UnwoundChain(t: Target, a: Machine, b: Machine, c: Machine)
    ensures Unwound(t, a, a)
    ensures Unwound(t, a, b) && Unwound(t, b, c) ==> Unwound(t, a, c)
  {
    hide FileOf, ReturnAddress;
  }

  /** Entering a function: its prologue brings the arguments into their bindings. */
  lemma Enters(image: Image, layouts: seq<Layout>, f: nat, arguments: seq<Word>, m0: Machine) returns (n: nat, m: Machine)
    requires Compiled(image, layouts) && f < |layouts| && f < |image.program.functions| && f < |image.entry|
    requires |arguments| == image.program.functions[f].parameters
    requires forall s :: 0 <= s < |arguments| ==> Get(m0.regs, ArgumentRegister(image.target, s)) == arguments[s]
    ensures Run(image, Running(image.entry[f], m0), n) == Running(BodyStart(image, layouts[f], f), m)
    ensures m.out == m0.out && Active(image, layouts[f], Bind(arguments), m0, m)
  {
    hide Run, Bindings, Sound, RunBlock, PrologueCode, ArgumentRegister, CodeAt, BodySite, InBody, Compiled, Bind;
    var t, l := image.target, layouts[f];
    BodySiteStart(image, layouts, f);
    FunctionFacts(image, layouts, f);
    PrologueRuns(t, l, arguments, m0);
    var code := PrologueCode(t, l, |arguments|);
    m := RunBlock(t, code, 0, m0).m;
    n := BlockRuns(image, code, 0, m0, image.entry[f]);
    InBodyInFrame(t, l, m0, m);
  }

  lemma {:induction false} HopArity(p: Program, fuel: nat, body: seq<Stmt>, i: nat, frameSlots: nat, env: Env, out: seq<Event>)
    requires forall k :: 0 <= k < |body| ==> WellFormedStmt(p.functions, frameSlots, body[k])
    requires HopFrom(p, fuel, body, i, env, out).Some?
    ensures var hop := HopFrom(p, fuel, body, i, env, out).value;
      hop.callee < |p.functions| && |hop.arguments| == p.functions[hop.callee].parameters
    decreases |body| - i
  {
    hide Eval, EvalWritten, Place, WellFormedExpr;
    var next := FallsTo(p, fuel, body[i], env, out);
    if next.Some? {
      HopArity(p, fuel, body, i + 1, frameSlots, next.value.env, next.value.out);
    } else if body[i].ReturnStmt? {
      CallArity(p, fuel, frameSlots, body[i].value, env, out);
    } else {
      CallArity(p, fuel, frameSlots, body[i].value, env, Eval(p, fuel, body[i].condition, env, out).out);
    }
  }

  lemma CallArity(p: Program, fuel: nat, frameSlots: nat, value: Expr, env: Env, out: seq<Event>)
    requires WellFormedExpr(p.functions, frameSlots, value) && HopOf(p, fuel, value, env, out).Some?
    ensures var hop := HopOf(p, fuel, value, env, out).value;
      hop.callee < |p.functions| && |hop.arguments| == p.functions[hop.callee].parameters
  {
    WrittenAll(p, fuel, value, 0, env, out);
    PlaceSize(value.order, EvalWritten(p, fuel, value, 0, env, out).words);
  }

  lemma {:induction false} WrittenAll(p: Program, fuel: nat, e: Expr, w: nat, env: Env, out: seq<Event>)
    requires w <= WrittenCount(e) && EvalWritten(p, fuel, e, w, env, out).Values?
    ensures |EvalWritten(p, fuel, e, w, env, out).words| == WrittenCount(e) - w
    decreases WrittenCount(e) - w
  {
    hide Eval;
    if w < WrittenCount(e) {
      WrittenAll(p, fuel, e, w + 1, env, Eval(p, fuel, Written(e, w), env, out).out);
    }
  }

  /**
   However many direct, self or mutual tail calls follow each other, each
   callee starts with the stack pointer, frame pointer, return address,
   call-safe registers and caller's memory the first callee started with, and
   with exactly the arguments and trace the source gives it.
   */
  lemma {:induction false} ChainKeepsStack(
      image: Image, layouts: seq<Layout>, fuel: nat, f: nat, arguments: seq<Word>, m0: Machine, m: Machine, hops: seq<Hop>)
    returns (n: nat, g: nat, arguments': seq<Word>, m0': Machine, m': Machine)
    requires Compiled(image, layouts) && f < |layouts| && f < |image.program.functions| && f < |image.entry|
    requires Active(image, layouts[f], Bind(arguments), m0, m)
    requires IsChain(image.program, fuel, f, arguments, m.out, hops)
    ensures if hops == [] then g == f && arguments' == arguments && m'.out == m.out
            else var last := hops[|hops| - 1]; g == last.callee && arguments' == last.arguments && m'.out == last.out
    ensures g < |layouts| && g < |image.program.functions| && g < |image.entry|
    ensures Run(image, Running(BodyStart(image, layouts[f], f), m), n) == Running(BodyStart(image, layouts[g], g), m')
    ensures Unwound(image.target, m0, m0') && Active(image, layouts[g], Bind(arguments'), m0', m')
    decreases |hops|
  {
    hide Run, Compiled, BodyStart, Active, BodySite, HopFrom, Unwound, Bind, ArgumentRegister, Place;
    if hops == [] {
      UnwoundChain(image.target, m0, m0, m0);
      n, g, arguments', m0', m' := 0, f, arguments, m0, m;
      RunNothing(image, Running(BodyStart(image, layouts[f], f), m));
    } else {
      var hop := hops[0];
      HopFacts(image, layouts, fuel, f, arguments, m.out);
      BodySiteStart(image, layouts, f);
      var n1, pc1, m1 := BodyLands(image, layouts, f, fuel, 0, 0, Bind(arguments), m0, m);
      var start, n2, m2 := m0, 0, m1;
      if hop.callee == f {
        UnwoundChain(image.target, m0, m0, m0);
        RunNothing(image, Running(pc1, m1));
      } else {
        start := m1;
        n2, m2 := Enters(image, layouts, hop.callee, hop.arguments, m1);
      }
      RunPlus(image, Running(BodyStart(image, layouts[f], f), m), n1, n2);
      var n3;
      n3, g, arguments', m0', m' := ChainKeepsStack(image, layouts, fuel, hop.callee, hop.arguments, start, m2, hops[1..]);
      RunPlus(image, Running(BodyStart(image, layouts[f], f), m), n1 + n2, n3);
      UnwoundChain(image.target, m0, start, m0');
      n := n1 + n2 + n3;
    }
  }

  lemma RunNothing(image: Image, s: State)
    ensures Run(image, s, 0) == s
  {
  }

  lemma HopFacts(image: Image, layouts: seq<Layout>, fuel: nat, f: nat, arguments: seq<Word>, out: seq<Event>)
    requires Compiled(image, layouts) && f < |layouts| && f < |image.program.functions|
    requires HopFrom(image.program, fuel, image.program.functions[f].body, 0, Bind(arguments), out).Some?
    ensures var hop := HopFrom(image.program, fuel, image.program.functions[f].body, 0, Bind(arguments), out).value;
      && hop.callee < |image.program.functions| == |layouts| == |image.entry|
      && |hop.arguments| == image.program.functions[hop.callee].parameters
  {
    hide HopFrom, CompiledFunction, Bind;
    var function_ := image.program.functions[f];
    assert WellFormedFunction(image.program.functions, function_);
    HopArity(image.program, fuel, function_.body, 0, function_.FrameSlots(), Bind(arguments), out);
  }
}
