/** The induction: expressions, arguments, statements and functions together. */
module Execution {
  import opened Words
  import opened Core
  import opened Pressure
  import opened Targets
  import opened Machine
  import opened Lowering
  import opened Meaning
  import opened Blocks
  import opened Leaves
  import opened Frames
  import opened Preservation
  import opened Permutations
  import opened Correctness
  import opened Activation

  // ----- two operands -----

  datatype PairOutcome = Both(a: Word, b: Word, out: seq<Event>) | Failed(outcome: Outcome)

  function EvalPair(p: Program, fuel: nat, left: Expr, right: Expr, env: Env, out: seq<Event>): PairOutcome {
    match Eval(p, fuel, left, env, out)
    case Value(a, out') =>
      (match Eval(p, fuel, right, env, out')
       case Value(b, out'') => Both(a, b, out'')
       case other => Failed(other))
    case other => Failed(other)
  }

  /** Both operands are in their depths. */
  ghost predicate EvaluatesPair(
      image: Image, l: Layout, d: nat, calls: bool, pair: PairOutcome, fuel: nat, m: Machine, pc: int, len: nat, n: nat)
  {
    match pair
    case Failed(outcome) => !outcome.Value? && Evaluates(image, l, d, calls, outcome, fuel, m, pc, len, n)
    case Both(a, b, out) =>
      var s := Run(image, Running(pc, m), n);
      && s.Running? && s.pc == pc + len && s.m.out == out
      && Read(image.target, s.m, EvalOperand(l, d)) == a
      && Read(image.target, s.m, EvalOperand(l, d + 1)) == b
      && Same(image.target, m, s.m, EvalWrites(l, d, calls))
  }

  lemma PairJoins(image: Image, l: Layout, e: Expr, left: Expr, right: Expr, d: nat, fuel: nat, env: Env,
      a: Word, rest: Outcome, m: Machine, pc: int, m1: Machine, len1: nat, len2: nat, n1: nat, n2: nat)
    requires IsPair(e, left, right) && Lowerable(image, l, e, d) && Ready(image, l, env, m1)
    requires Run(image, Running(pc, m), n1) == Running(pc + len1, m1)
    requires Read(image.target, m1, EvalOperand(l, d)) == a
    requires Same(image.target, m, m1, EvalWrites(l, d, Calls(left)))
    requires Evaluates(image, l, d + 1, Calls(right), rest, fuel, m1, pc + len1, len2, n2)
    ensures EvaluatesPair(image, l, d, Calls(left) || Calls(right),
      (match rest case Value(b, out) => Both(a, b, out) case other => Failed(other)),
      fuel, m, pc, len1 + len2, n1 + n2)
  {
    hide Same, EvalWrites, Sound, Run, WellFormedExpr, Crosses, EvalOperand;
    var t := image.target;
    var calls := Calls(left) || Calls(right);
    RunPlus(image, Running(pc, m), n1, n2);
    if rest.Value? {
      PairLowerable(image, l, e, left, right, d);
      var m2 := Run(image, Running(pc + len1, m1), n2).m;
      DepthKept(t, l, m1, m2, d, d + 1, Calls(right));
      WritesWiden(l, d, calls, d, Calls(left));
      WritesWiden(l, d, calls, d + 1, Calls(right));
      SameWider(t, m, m1, EvalWrites(l, d, Calls(left)), EvalWrites(l, d, calls));
      SameWider(t, m1, m2, EvalWrites(l, d + 1, Calls(right)), EvalWrites(l, d, calls));
      SameTrans(t, m, m1, m2, EvalWrites(l, d, calls));
    }
  }

  lemma {:induction false} PairCorrect(image: Image, layouts: seq<Layout>, l: Layout, fuel: nat,
      e: Expr, left: Expr, right: Expr, d: nat, env: Env, m: Machine, pc: int) returns (n: nat)
    requires IsPair(e, left, right) && Compiled(image, layouts) && Ready(image, l, env, m) && Lowerable(image, l, e, d)
    requires CodeAt(image.code, pc, ExprCode(image.target, l, left, d))
    requires CodeAt(image.code, pc + |ExprCode(image.target, l, left, d)|, ExprCode(image.target, l, right, d + 1))
    ensures EvaluatesPair(image, l, d, Calls(left) || Calls(right), EvalPair(image.program, fuel, left, right, env, m.out), fuel, m, pc,
                          |ExprCode(image.target, l, left, d)| + |ExprCode(image.target, l, right, d + 1)|, n)
    decreases fuel, 1, e, 1, 0
  {
    hide Same, EvalWrites, Sound, Run, WellFormedExpr, Crosses, EvalOperand, Lowerable, Compiled, Ready, Eval;
    var t := image.target;
    var first, second := ExprCode(t, l, left, d), ExprCode(t, l, right, d + 1);
    PairLowerable(image, l, e, left, right, d);
    var n1 := ExprCorrect(image, layouts, l, fuel, left, d, env, m, pc);
    var outcome := Eval(image.program, fuel, left, env, m.out);
    if outcome.Value? {
      var m1 := Run(image, Running(pc, m), n1).m;
      PairBindings(image, l, e, left, right, d);
      ReadyKept(image, l, env, m, m1, d, Calls(left));
      var n2 := ExprCorrect(image, layouts, l, fuel, right, d + 1, env, m1, pc + |first|);
      var rest := Eval(image.program, fuel, right, env, m1.out);
      PairJoins(image, l, e, left, right, d, fuel, env, outcome.word, rest, m, pc, m1, |first|, |second|, n1, n2);
      n := n1 + n2;
    } else {
      n := n1;
    }
  }

  lemma PairBindings(image: Image, l: Layout, e: Expr, left: Expr, right: Expr, d: nat)
    requires IsPair(e, left, right) && Lowerable(image, l, e, d)
    ensures Calls(left) ==> BindingsSafe(l)
    ensures d + 2 <= l.evalDepth
  {}

  lemma ReadyLayout(image: Image, l: Layout, env: Env, m: Machine)
    requires Ready(image, l, env, m)
    ensures LayoutOk(image, l) && InFrame(l, m)
  {}

  // ----- arguments -----

  lemma {:induction false} ArgumentsCorrect(image: Image, layouts: seq<Layout>, l: Layout, fuel: nat,
      e: Expr, w: nat, d: nat, env: Env, m: Machine, pc: int) returns (n: nat)
    requires Compiled(image, layouts) && Ready(image, l, env, m) && LowerableFrom(image, l, e, w, d) && w <= WrittenCount(e)
    requires CodeAt(image.code, pc, ArgumentsCode(image.target, l, e, w, d))
    ensures EvaluatesFrom(image, l, e, w, d, EvalWritten(image.program, fuel, e, w, env, m.out), fuel, m, pc,
                          |ArgumentsCode(image.target, l, e, w, d)|, n)
    decreases fuel, 1, e, 0, WrittenCount(e) - w
  {
    hide Same, Sound, Run, WellFormedExpr, Crosses, EvalOperand, Compiled, Ready, Eval, ExprCode, FitsFrom;
    var t := image.target;
    if w == WrittenCount(e) {
      n := 0;
      NothingRuns(image, l, m, pc, d + w, CallsFrom(e, w));
    } else {
      ArgumentLowerable(image, l, e, w, d);
      var argument := Written(e, w);
      var first, second := ExprCode(t, l, argument, d + w), ArgumentsCode(t, l, e, w + 1, d);
      CodeAtSplit(image.code, pc, first, second);
      var n1 := ExprCorrect(image, layouts, l, fuel, argument, d + w, env, m, pc);
      var outcome := Eval(image.program, fuel, argument, env, m.out);
      if outcome.Value? {
        var m1 := Run(image, Running(pc, m), n1).m;
        ArgumentBindings(image, l, e, w, d);
        ReadyKept(image, l, env, m, m1, d + w, Calls(argument));
        var n2 := ArgumentsCorrect(image, layouts, l, fuel, e, w + 1, d, env, m1, pc + |first|);
        var rest := EvalWritten(image.program, fuel, e, w + 1, env, m1.out);
        ArgumentsJoin(image, l, e, w, d, fuel, env, m, pc, m1, |first|, |second|, outcome.word, rest, n1, n2);
        n := n1 + n2;
      } else {
        n := n1;
      }
    }
  }

  lemma ArgumentBindings(image: Image, l: Layout, e: Expr, w: nat, d: nat)
    requires LowerableFrom(image, l, e, w, d) && w < WrittenCount(e) && HasWritten(e, w)
    ensures Calls(Written(e, w)) ==> BindingsSafe(l)
  {}

  lemma NothingRuns(image: Image, l: Layout, m: Machine, pc: int, d: nat, calls: bool)
    ensures Run(image, Running(pc, m), 0) == Running(pc, m)
    ensures Same(image.target, m, m, EvalWrites(l, d, calls))
  {}

  // ----- expressions -----

  /**
   Expression lowering preserves meaning. Running the emitted code of e at
   depth d reaches its end with the source value in the location of depth d and
   the source trace observed, or traps exactly as the source does; only that
   depth, deeper ones and registers no live value can occupy have changed.
   When the source needs more calls than `fuel`, the machine is still running
   after at least that many steps.
   */
  lemma {:induction false} ExprCorrect(image: Image, layouts: seq<Layout>, l: Layout, fuel: nat,
      e: Expr, d: nat, env: Env, m: Machine, pc: int) returns (n: nat)
    requires Compiled(image, layouts) && Ready(image, l, env, m) && Lowerable(image, l, e, d)
    requires CodeAt(image.code, pc, ExprCode(image.target, l, e, d))
    ensures Evaluates(image, l, d, Calls(e), Eval(image.program, fuel, e, env, m.out), fuel, m, pc,
                      |ExprCode(image.target, l, e, d)|, n)
    decreases fuel, 1, e, 2, 0
  {
    hide Same, EvalWrites, Sound, Run, WellFormedExpr, Crosses, EvalOperand, Compiled, Ready, Evaluates, Lowerable;
    match e
    case Literal(_) => n := AtomCorrect(image, l, fuel, e, d, env, m, pc);
    case TextLiteral(_) => n := AtomCorrect(image, l, fuel, e, d, env, m, pc);
    case Parameter(_) => n := ParameterCorrect(image, l, fuel, e, d, env, m, pc);
    case Negate(left) => n := NegateCorrect(image, layouts, l, fuel, e, d, env, m, pc);
    case Binary(_, _, _) => n := BinaryCorrect(image, layouts, l, fuel, e, d, env, m, pc);
    case Concat(_, _) => n := ConcatCorrect(image, layouts, l, fuel, e, d, env, m, pc);
    case Call(_, _, _) => n := CallCorrect(image, layouts, l, fuel, e, d, env, m, pc);
    case Syscall(_) => n := SyscallCorrect(image, layouts, l, fuel, e, d, env, m, pc);
  }

  lemma AtomCorrect(image: Image, l: Layout, fuel: nat, e: Expr, d: nat, env: Env, m: Machine, pc: int) returns (n: nat)
    requires e.Literal? || e.TextLiteral?
    requires Ready(image, l, env, m) && Lowerable(image, l, e, d)
    requires CodeAt(image.code, pc, ExprCode(image.target, l, e, d))
    ensures Evaluates(image, l, d, Calls(e), Eval(image.program, fuel, e, env, m.out), fuel, m, pc,
                      |ExprCode(image.target, l, e, d)|, n)
  {
    hide Same, EvalWrites, Run, Evaluates, RunBlock;
    var t := image.target;
    EvalInFrame(t, l, m, d);
    match e
    case Literal(value) =>
      LiteralLeaf(t, EvalOperand(l, d), value, m);
      n := PlacementEvaluates(image, l, d, false, fuel, Int(value), m, pc, ExprCode(t, l, e, d));
    case TextLiteral(text) =>
      TextLiteralLeaf(t, EvalOperand(l, d), text, m);
      n := PlacementEvaluates(image, l, d, false, fuel, Text(text), m, pc, ExprCode(t, l, e, d));
  }

  lemma ParameterCorrect(image: Image, l: Layout, fuel: nat, e: Expr, d: nat, env: Env, m: Machine, pc: int) returns (n: nat)
    requires e.Parameter? && Ready(image, l, env, m) && Lowerable(image, l, e, d)
    requires CodeAt(image.code, pc, ExprCode(image.target, l, e, d))
    ensures Evaluates(image, l, d, Calls(e), Eval(image.program, fuel, e, env, m.out), fuel, m, pc,
                      |ExprCode(image.target, l, e, d)|, n)
  {
    hide Same, EvalWrites, Run, RunBlock;
    var t := image.target;
    var from := ValueOperand(l, e.slot);
    MoveLeaf(t, EvalOperand(l, d), from, m);
    n := PlacementEvaluates(image, l, d, false, fuel, Read(t, m, from), m, pc, ExprCode(t, l, e, d));
  }

  lemma {:induction false} NegateCorrect(image: Image, layouts: seq<Layout>, l: Layout, fuel: nat,
      e: Expr, d: nat, env: Env, m: Machine, pc: int) returns (n: nat)
    requires e.Negate? && Compiled(image, layouts) && Ready(image, l, env, m) && Lowerable(image, l, e, d)
    requires CodeAt(image.code, pc, ExprCode(image.target, l, e, d))
    ensures Evaluates(image, l, d, Calls(e), Eval(image.program, fuel, e, env, m.out), fuel, m, pc,
                      |ExprCode(image.target, l, e, d)|, n)
    decreases fuel, 1, e, 1, 0
  {
    hide Same, EvalWrites, Sound, Run, WellFormedExpr, Crosses, EvalOperand, Compiled, Ready, NegateCode;
    var t := image.target;
    var left := e.left;
    NegateLowerable(image, l, left, d);
    var first, second := ExprCode(t, l, left, d), NegateCode(t, EvalOperand(l, d));
    CodeAtSplit(image.code, pc, first, second);
    var n1 := ExprCorrect(image, layouts, l, fuel, left, d, env, m, pc);
    var outcome := Eval(image.program, fuel, left, env, m.out);
    if outcome.Value? {
      var m1 := Run(image, Running(pc, m), n1).m;
      if outcome.word.Int? {
        var n2 := NegateFinishes(image, l, fuel, left, d, env, m, m1, pc + |first|, outcome.word);
        Prefixed(image, l, d, Calls(left), FinishNegate(outcome.word, m1.out), fuel, m, pc, m1, pc + |first|,
                 |first| + |second|, |second|, n1, n2);
        n := n1 + n2;
      } else {
        n := n1;
      }
    } else {
      n := n1;
    }
  }

  lemma NegateFinishes(image: Image, l: Layout, fuel: nat, left: Expr, d: nat, env: Env, m: Machine, m1: Machine, pc: int, a: Word)
    returns (n: nat)
    requires Ready(image, l, env, m) && Lowerable(image, l, left, d) && a.Int?
    requires Same(image.target, m, m1, EvalWrites(l, d, Calls(left))) && Read(image.target, m1, EvalOperand(l, d)) == a
    requires CodeAt(image.code, pc, NegateCode(image.target, EvalOperand(l, d)))
    ensures Evaluates(image, l, d, Calls(left), FinishNegate(a, m1.out), fuel, m1, pc,
                      |NegateCode(image.target, EvalOperand(l, d))|, n)
  {
    hide Same, EvalWrites, Run, Evaluates, Ends, RunBlock, NegateCode, EvalOperand;
    var t := image.target;
    var result := EvalOperand(l, d);
    EvalInFrame(t, l, m, d);
    NegateLeaf(t, result, m1);
    n := BlockEvaluates(image, l, d, Calls(left), fuel, Checked(0 - IntAt(t, m1, result), NegateOverflow), m1, pc,
                        NegateCode(t, result));
  }

  lemma {:induction false} BinaryCorrect(image: Image, layouts: seq<Layout>, l: Layout, fuel: nat,
      e: Expr, d: nat, env: Env, m: Machine, pc: int) returns (n: nat)
    requires e.Binary? && Compiled(image, layouts) && Ready(image, l, env, m) && Lowerable(image, l, e, d)
    requires CodeAt(image.code, pc, ExprCode(image.target, l, e, d))
    ensures Evaluates(image, l, d, Calls(e), Eval(image.program, fuel, e, env, m.out), fuel, m, pc,
                      |ExprCode(image.target, l, e, d)|, n)
    decreases fuel, 1, e, 1, 1
  {
    hide Same, EvalWrites, Sound, Run, WellFormedExpr, Crosses, EvalOperand, Compiled, Ready, BinaryCode, FinishBinary, Lowerable, CodeAt;
    var t := image.target;
    var left, right := e.left, e.right;
    var first, second := ExprCode(t, l, left, d), ExprCode(t, l, right, d + 1);
    var last := BinaryCode(t, e.op, EvalOperand(l, d), EvalOperand(l, d + 1));
    CodeAtSplit(image.code, pc, first, second + last);
    CodeAtSplit(image.code, pc + |first|, second, last);
    var n1 := PairCorrect(image, layouts, l, fuel, e, left, right, d, env, m, pc);
    var pair := EvalPair(image.program, fuel, left, right, env, m.out);
    ReadyLayout(image, l, env, m);
    PairBindings(image, l, e, left, right, d);
    if pair.Both? {
      var m1 := Run(image, Running(pc, m), n1).m;
      if pair.a.Int? && pair.b.Int? {
        var n2 := BinaryFinishes(image, l, fuel, e, d, env, m, m1, pc + |first| + |second|, pair.a, pair.b);
        Prefixed(image, l, d, Calls(e), FinishBinary(e.op, pair.a, pair.b, m1.out), fuel, m, pc, m1,
                 pc + |first| + |second|, |first| + |second| + |last|, |last|, n1, n2);
        n := n1 + n2;
      } else {
        StuckBinary(e.op, pair.a, pair.b, m1.out);
        n := n1;
      }
    } else {
      n := n1;
    }
  }

  lemma StuckBinary(op: BinaryOp, a: Word, b: Word, out: seq<Event>)
    requires !(a.Int? && b.Int?)
    ensures FinishBinary(op, a, b, out) == Stuck
  {}

  lemma BinaryFinishes(image: Image, l: Layout, fuel: nat, e: Expr, d: nat, env: Env, m: Machine, m1: Machine, pc: int,
      a: Word, b: Word) returns (n: nat)
    requires e.Binary? && LayoutOk(image, l) && d + 2 <= l.evalDepth && a.Int? && b.Int?
    requires Read(image.target, m1, EvalOperand(l, d)) == a && Read(image.target, m1, EvalOperand(l, d + 1)) == b
    requires CodeAt(image.code, pc, BinaryCode(image.target, e.op, EvalOperand(l, d), EvalOperand(l, d + 1)))
    ensures Evaluates(image, l, d, Calls(e), FinishBinary(e.op, a, b, m1.out), fuel, m1, pc,
                      |BinaryCode(image.target, e.op, EvalOperand(l, d), EvalOperand(l, d + 1))|, n)
  {
    hide Same, EvalWrites, Run, Evaluates, Ends, RunBlock, BinaryCode, EvalOperand, Apply;
    var t := image.target;
    var result, other := EvalOperand(l, d), EvalOperand(l, d + 1);
    EvalUsable(l, d);
    EvalUsable(l, d + 1);
    BinaryLeaf(t, e.op, result, other, m1);
    n := BlockEvaluates(image, l, d, Calls(e), fuel, Apply(e.op, a.n, b.n), m1, pc, BinaryCode(t, e.op, result, other));
  }

  lemma EvalUsable(l: Layout, k: nat)
    requires Sound(l) && k < l.evalDepth
    ensures Usable(l.file, EvalOperand(l, k))
  {
    assert EvalLocated(l, EvalOperand(l, k));
  }

  // ----- concatenation -----

  lemma {:induction false} ConcatCorrect(image: Image, layouts: seq<Layout>, l: Layout, fuel: nat,
      e: Expr, d: nat, env: Env, m: Machine, pc: int) returns (n: nat)
    requires e.Concat? && Compiled(image, layouts) && Ready(image, l, env, m) && Lowerable(image, l, e, d)
    requires CodeAt(image.code, pc, ExprCode(image.target, l, e, d))
    ensures Evaluates(image, l, d, Calls(e), Eval(image.program, fuel, e, env, m.out), fuel, m, pc,
                      |ExprCode(image.target, l, e, d)|, n)
    decreases fuel, 1, e, 1, 1
  {
    hide Same, EvalWrites, Sound, Run, WellFormedExpr, Crosses, EvalOperand, Compiled, Ready, ConcatMoves, MoveAll, Move, FinishConcat;
    var t := image.target;
    var left, right := e.left, e.right;
    var first, second := ExprCode(t, l, left, d), ExprCode(t, l, right, d + 1);
    var last := MoveAll(t, ConcatMoves(t, l, d)) + ([CallConcat] + Move(t, EvalOperand(l, d), Reg(0)));
    CodeAtSplit(image.code, pc, first, second + last);
    CodeAtSplit(image.code, pc + |first|, second, last);
    var n1 := PairCorrect(image, layouts, l, fuel, e, left, right, d, env, m, pc);
    var pair := EvalPair(image.program, fuel, left, right, env, m.out);
    PairBindings(image, l, e, left, right, d);
    if pair.Both? {
      var m1 := Run(image, Running(pc, m), n1).m;
      ConcatOutcome(pair.a, pair.b, m1.out);
      if pair.a.Text? && pair.b.Text? {
        n := ConcatBoth(image, layouts, l, fuel, e, d, env, m, pc, m1, n1, pair.a, pair.b);
      } else {
        n := n1;
      }
    } else {
      n := n1;
    }
  }

  /** Both operands are in place: the helper is called and its answer moved home. */
  lemma ConcatBoth(image: Image, layouts: seq<Layout>, l: Layout, fuel: nat, e: Expr, d: nat, env: Env,
      m: Machine, pc: int, m1: Machine, n1: nat, a: Word, b: Word) returns (n: nat)
    requires e.Concat? && Ready(image, l, env, m) && Lowerable(image, l, e, d) && a.Text? && b.Text? && d + 2 <= l.evalDepth
    requires Run(image, Running(pc, m), n1)
      == Running(pc + |ExprCode(image.target, l, e.left, d)| + |ExprCode(image.target, l, e.right, d + 1)|, m1)
    requires Read(image.target, m1, EvalOperand(l, d)) == a && Read(image.target, m1, EvalOperand(l, d + 1)) == b
    requires Same(image.target, m, m1, EvalWrites(l, d, Calls(e.left) || Calls(e.right)))
    requires CodeAt(image.code, pc + |ExprCode(image.target, l, e.left, d)| + |ExprCode(image.target, l, e.right, d + 1)|,
                    MoveAll(image.target, ConcatMoves(image.target, l, d)) + ([CallConcat] + Move(image.target, EvalOperand(l, d), Reg(0))))
    ensures Evaluates(image, l, d, true, Value(Text(a.text + b.text), m1.out), fuel, m, pc, |ExprCode(image.target, l, e, d)|, n)
  {
    hide Same, EvalWrites, Sound, Run, Crosses, EvalOperand, Ready, ConcatMoves, MoveAll, Move, Lowerable, Evaluates, CodeAt;
    var t := image.target;
    var first, second := ExprCode(t, l, e.left, d), ExprCode(t, l, e.right, d + 1);
    var last := MoveAll(t, ConcatMoves(t, l, d)) + ([CallConcat] + Move(t, EvalOperand(l, d), Reg(0)));
    WritesWiden(l, d, true, d, Calls(e.left) || Calls(e.right));
    SameWider(t, m, m1, EvalWrites(l, d, Calls(e.left) || Calls(e.right)), EvalWrites(l, d, true));
    ConcatBindings(image, l, e, d);
    ReadyKept(image, l, env, m, m1, d, true);
    var n2 := ConcatFinishes(image, l, fuel, d, env, m1, pc + |first| + |second|, a, b);
    Prefixed(image, l, d, true, Value(Text(a.text + b.text), m1.out), fuel, m, pc, m1,
             pc + |first| + |second|, |first| + |second| + |last|, |last|, n1, n2);
    n := n1 + n2;
  }

  lemma ConcatOutcome(a: Word, b: Word, out: seq<Event>)
    ensures FinishConcat(a, b, out) == if a.Text? && b.Text? then Value(Text(a.text + b.text), out) else Stuck
  {}

  lemma ConcatBindings(image: Image, l: Layout, e: Expr, d: nat)
    requires e.Concat? && Lowerable(image, l, e, d)
    ensures BindingsSafe(l)
  {}

  lemma ConcatFinishes(image: Image, l: Layout, fuel: nat, d: nat, env: Env, m: Machine, pc: int, a: Word, b: Word)
    returns (n: nat)
    requires Ready(image, l, env, m) && d + 2 <= l.evalDepth && a.Text? && b.Text?
    requires Read(image.target, m, EvalOperand(l, d)) == a && Read(image.target, m, EvalOperand(l, d + 1)) == b
    requires CodeAt(image.code, pc, MoveAll(image.target, ConcatMoves(image.target, l, d))
                                    + ([CallConcat] + Move(image.target, EvalOperand(l, d), Reg(0))))
    ensures Evaluates(image, l, d, true, Value(Text(a.text + b.text), m.out), fuel, m, pc,
                      |MoveAll(image.target, ConcatMoves(image.target, l, d))| + (1 + |Move(image.target, EvalOperand(l, d), Reg(0))|), n)
  {
    hide Same, EvalWrites, Run, Evaluates, EvalOperand, ConcatMoves, MoveAll, Move, RunBlock, Bindings, Sound, ArgumentRegister;
    var t := image.target;
    var moves := MoveAll(t, ConcatMoves(t, l, d));
    var tail := [CallConcat] + Move(t, EvalOperand(l, d), Reg(0));
    CodeAtSplit(image.code, pc, moves, tail);
    ConcatMovesPlace(image, l, d, m);
    var m1 := RunBlock(t, moves, 0, m).m;
    var n1 := BlockRuns(image, moves, 0, m, pc);
    var n2 := ConcatCompletes(image, l, d, fuel, a.text, b.text, m1, pc + |moves|);
    Prefixed(image, l, d, true, Value(Text(a.text + b.text), m.out), fuel, m, pc, m1, pc + |moves|, |moves| + |tail|, |tail|, n1, n2);
    n := n1 + n2;
  }

  // ----- calls -----

  /** Filling the boundary of a call. */
  lemma BoundaryRuns(image: Image, l: Layout, order: seq<nat>, d: nat, words: seq<Word>, m: Machine, pc: int)
    returns (n: nat, m': Machine)
    requires LayoutOk(image, l) && InFrame(l, m) && IsPermutation(order) && |order| <= 6
    requires d + |order| <= l.evalDepth && |words| == |order|
    requires forall j :: 0 <= j < |words| ==> Read(image.target, m, EvalOperand(l, d + j)) == words[j]
    requires CodeAt(image.code, pc, MoveAll(image.target, BoundaryMoves(image.target, l, order, d)))
    ensures Run(image, Running(pc, m), n) == Running(pc + |MoveAll(image.target, BoundaryMoves(image.target, l, order, d))|, m')
    ensures m'.out == m.out && Same(image.target, m, m', EvalWrites(l, d, true))
    ensures forall s :: 0 <= s < |order| ==> Get(m'.regs, ArgumentRegister(image.target, s)) == Place(order, words)[s]
  {
    hide Same, EvalWrites, Run, EvalOperand, BoundaryMoves, MoveAll, RunBlock, Sound, ArgumentRegister, IsPermutation;
    var t := image.target;
    var code := MoveAll(t, BoundaryMoves(t, l, order, d));
    BoundaryFilled(image, l, order, d, words, m);
    BoundaryOrderly(image, l, order, d, m);
    m' := RunBlock(t, code, 0, m).m;
    n := BlockRuns(image, code, 0, m, pc);
    SameWider(t, m, m', Destinations(BoundaryMoves(t, l, order, d)), EvalWrites(l, d, true));
  }

  /** What a well-formed call promises about its callee and its depths. */
  lemma CallFacts(image: Image, layouts: seq<Layout>, l: Layout, e: Expr, d: nat)
    requires e.Call? && Compiled(image, layouts) && Lowerable(image, l, e, d)
    ensures e.function_ < |image.program.functions| == |layouts| == |image.entry|
    ensures WrittenCount(e) == |e.order| == image.program.functions[e.function_].parameters <= 6
    ensures IsPermutation(e.order) && d < l.evalDepth && d + |e.order| <= l.evalDepth && BindingsSafe(l) && Calls(e)
  {
    assert WellFormedFunction(image.program.functions, image.program.functions[e.function_]);
    WrittenWithinNeed(e, 0);
  }

  lemma {:induction false} WrittenWithinNeed(e: Expr, w: nat)
    requires FullyWritten(e)
    ensures w < WrittenCount(e) ==> NeedFrom(e, w) >= WrittenCount(e)
    decreases WrittenCount(e) - w
  {
    if w < WrittenCount(e) {
      WrittenWithinNeed(e, w + 1);
    }
  }

  lemma {:induction false} CallCorrect(image: Image, layouts: seq<Layout>, l: Layout, fuel: nat,
      e: Expr, d: nat, env: Env, m: Machine, pc: int) returns (n: nat)
    requires e.Call? && Compiled(image, layouts) && Ready(image, l, env, m) && Lowerable(image, l, e, d)
    requires CodeAt(image.code, pc, ExprCode(image.target, l, e, d))
    ensures Evaluates(image, l, d, Calls(e), Eval(image.program, fuel, e, env, m.out), fuel, m, pc,
                      |ExprCode(image.target, l, e, d)|, n)
    decreases fuel, 1, e, 1, 1
  {
    hide Same, EvalWrites, Sound, Run, WellFormedExpr, Crosses, EvalOperand, Compiled, Ready, BoundaryMoves, MoveAll, Move,
         EvalWritten, ArgumentsCode, Lowerable, RunFunction, IsPermutation, Calls;
    var t := image.target;
    CallFacts(image, layouts, l, e, d);
    var first := ArgumentsCode(t, l, e, 0, d);
    var tail := [CallFunction(e.function_)] + Move(t, EvalOperand(l, d), Reg(0));
    var moves := MoveAll(t, BoundaryMoves(t, l, e.order, d));
    CodeAtSplit(image.code, pc, first, moves + tail);
    ArgumentsLowerable(image, l, e, d);
    var n1 := ArgumentsCorrect(image, layouts, l, fuel, e, 0, d, env, m, pc);
    var arguments := EvalWritten(image.program, fuel, e, 0, env, m.out);
    if arguments.Values? {
      var m1 := Run(image, Running(pc, m), n1).m;
      WritesWiden(l, d, true, d + 0, CallsFrom(e, 0));
      SameWider(t, m, m1, EvalWrites(l, d + 0, CallsFrom(e, 0)), EvalWrites(l, d, true));
      ReadyKept(image, l, env, m, m1, d, true);
      var n2 := CallFromBoundary(image, layouts, l, fuel, e, d, env, m1, pc + |first|, arguments.words);
      Prefixed(image, l, d, true, Called(image.program, fuel, e, arguments.words, m1.out), fuel, m, pc, m1, pc + |first|,
               |first| + (|moves| + |tail|), |moves| + |tail|, n1, n2);
      n := n1 + n2;
    } else {
      n := n1;
      AbortedIsFailure(image.program, fuel, e, env, m.out);
    }
  }

  /** The outcome of a call whose arguments have been evaluated. */
  function Called(p: Program, fuel: nat, e: Expr, words: seq<Word>, out: seq<Event>): Outcome
    requires e.Call? && e.function_ < |p.functions|
  {
    if fuel == 0 then Timeout else RunFunction(p, fuel - 1, e.function_, Place(e.order, words), out)
  }

  lemma {:induction false} EvalWrittenFails(p: Program, fuel: nat, e: Expr, w: nat, env: Env, out: seq<Event>)
    requires w <= WrittenCount(e)
    ensures var r := EvalWritten(p, fuel, e, w, env, out); r.Aborted? ==> !r.outcome.Value?
    decreases WrittenCount(e) - w
  {
    if w < WrittenCount(e) && HasWritten(e, w) {
      match Eval(p, fuel, Written(e, w), env, out)
      case Value(word, out') => EvalWrittenFails(p, fuel, e, w + 1, env, out');
      case _ =>
    }
  }

  lemma AbortedIsFailure(p: Program, fuel: nat, e: Expr, env: Env, out: seq<Event>)
    ensures var r := EvalWritten(p, fuel, e, 0, env, out); r.Aborted? ==> !r.outcome.Value?
  {
    EvalWrittenFails(p, fuel, e, 0, env, out);
  }

  lemma {:induction false} CallFromBoundary(image: Image, layouts: seq<Layout>, l: Layout, fuel: nat,
      e: Expr, d: nat, env: Env, m: Machine, pc: int, words: seq<Word>) returns (n: nat)
    requires e.Call? && Compiled(image, layouts) && Ready(image, l, env, m) && Lowerable(image, l, e, d)
    requires |words| == WrittenCount(e) && e.function_ < |image.program.functions|
    requires forall j :: 0 <= j < |words| ==> Read(image.target, m, EvalOperand(l, d + j)) == words[j]
    requires CodeAt(image.code, pc, MoveAll(image.target, BoundaryMoves(image.target, l, e.order, d))
               + ([CallFunction(e.function_)] + Move(image.target, EvalOperand(l, d), Reg(0))))
    ensures Evaluates(image, l, d, true, Called(image.program, fuel, e, words, m.out), fuel, m, pc,
              |MoveAll(image.target, BoundaryMoves(image.target, l, e.order, d))|
              + (1 + |Move(image.target, EvalOperand(l, d), Reg(0))|), n)
    decreases fuel, 1, e, 1, 0
  {
    hide Same, EvalWrites, Sound, Run, WellFormedExpr, Crosses, EvalOperand, Compiled, BoundaryMoves, MoveAll, Move,
         Lowerable, RunFunction, IsPermutation, Calls, ArgumentRegister, Bindings, PushReturn, Place, Finishes;
    var t := image.target;
    CallFacts(image, layouts, l, e, d);
    var moves := MoveAll(t, BoundaryMoves(t, l, e.order, d));
    var tail := [CallFunction(e.function_)] + Move(t, EvalOperand(l, d), Reg(0));
    CodeAtSplit(image.code, pc, moves, tail);
    var n1, m1 := BoundaryRuns(image, l, e.order, d, words, m, pc);
    if fuel == 0 {
      n := n1;
    } else {
      var f := e.function_;
      var ret := pc + |moves| + 1;
      var m0 := PushReturn(t, m1, ret);
      PlaceSize(e.order, words);
      PushKeepsArguments(t, m1, ret, Place(e.order, words));
      var n2 := FunctionCorrect(image, layouts, fuel - 1, f, Place(e.order, words), m0, ret);
      PushKeepsTrace(t, m1, ret);
      var outcome := RunFunction(image.program, fuel - 1, f, Place(e.order, words), m1.out);
      var n3 := CallCompletes(image, l, d, fuel, outcome, f, m1, pc + |moves|, n2);
      Prefixed(image, l, d, true, outcome, fuel, m, pc, m1, pc + |moves|, |moves| + |tail|, |tail|, n1, n3);
      n := n1 + n3;
    }
  }

  lemma PlaceSize(order: seq<nat>, words: seq<Word>)
    ensures |Place(order, words)| == |words|
  {}

  lemma PushKeepsTrace(t: Target, m: Machine, ret: int)
    ensures PushReturn(t, m, ret).out == m.out
  {}

  lemma PushKeepsArguments(t: Target, m: Machine, ret: int, arguments: seq<Word>)
    requires |arguments| <= 6
    requires forall s :: 0 <= s < |arguments| ==> Get(m.regs, ArgumentRegister(t, s)) == arguments[s]
    ensures var m0 := PushReturn(t, m, ret);
      && ReturnAddress(t, m0) == Return(ret)
      && forall s :: 0 <= s < |arguments| ==> Get(m0.regs, ArgumentRegister(t, s)) == arguments[s]
  {
    FileFacts(t);
  }

  // ----- system calls -----

  lemma {:induction false} SyscallCorrect(image: Image, layouts: seq<Layout>, l: Layout, fuel: nat,
      e: Expr, d: nat, env: Env, m: Machine, pc: int) returns (n: nat)
    requires e.Syscall? && Compiled(image, layouts) && Ready(image, l, env, m) && Lowerable(image, l, e, d)
    requires CodeAt(image.code, pc, ExprCode(image.target, l, e, d))
    ensures Evaluates(image, l, d, Calls(e), Eval(image.program, fuel, e, env, m.out), fuel, m, pc,
                      |ExprCode(image.target, l, e, d)|, n)
    decreases fuel, 1, e, 1, 1
  {
    hide Same, EvalWrites, Sound, Run, WellFormedExpr, Crosses, EvalOperand, Compiled, Ready, SyscallMoves, MoveAll, Move,
         EvalWritten, ArgumentsCode, Lowerable, Calls, FinishSyscall;
    var t := image.target;
    SyscallFacts(image, l, e, d);
    var count := |e.arguments|;
    var first := ArgumentsCode(t, l, e, 0, d);
    var tail := [KernelCall(count)] + Move(t, EvalOperand(l, d), Reg(0));
    var moves := MoveAll(t, SyscallMoves(l, count, d));
    CodeAtSplit(image.code, pc, first, moves + tail);
    ArgumentsLowerable(image, l, e, d);
    var n1 := ArgumentsCorrect(image, layouts, l, fuel, e, 0, d, env, m, pc);
    var arguments := EvalWritten(image.program, fuel, e, 0, env, m.out);
    if arguments.Values? {
      var m1 := Run(image, Running(pc, m), n1).m;
      SyscallOutcome(image.program, arguments.words, m1.out);
      if AllInts(arguments.words) {
        WritesWiden(l, d, true, d + 0, CallsFrom(e, 0));
        SameWider(t, m, m1, EvalWrites(l, d + 0, CallsFrom(e, 0)), EvalWrites(l, d, true));
        ReadyKept(image, l, env, m, m1, d, true);
        var n2 := SyscallFromBoundary(image, l, fuel, d, env, m1, pc + |first|, arguments.words);
        Prefixed(image, l, d, true, FinishSyscall(image.program, arguments.words, m1.out), fuel, m, pc, m1, pc + |first|,
                 |first| + (|moves| + |tail|), |moves| + |tail|, n1, n2);
        n := n1 + n2;
      } else {
        n := n1;
      }
    } else {
      n := n1;
      AbortedIsFailure(image.program, fuel, e, env, m.out);
    }
  }

  lemma SyscallOutcome(p: Program, words: seq<Word>, out: seq<Event>)
    ensures !AllInts(words) ==> FinishSyscall(p, words, out) == Stuck
  {}

  lemma SyscallFacts(image: Image, l: Layout, e: Expr, d: nat)
    requires e.Syscall? && Lowerable(image, l, e, d)
    ensures image.target.X64? && |e.arguments| <= 7 && WrittenCount(e) == |e.arguments|
    ensures d < l.evalDepth && d + |e.arguments| <= l.evalDepth && BindingsSafe(l) && Calls(e)
  {
    WellFormedWritten(image.program.functions, l.frameSlots, e);
    WrittenWithinNeed(e, 0);
  }

  lemma SyscallFromBoundary(image: Image, l: Layout, fuel: nat, d: nat, env: Env, m: Machine, pc: int, words: seq<Word>)
    returns (n: nat)
    requires image.target.X64? && Ready(image, l, env, m) && |words| <= 7 && d < l.evalDepth && d + |words| <= l.evalDepth
    requires AllInts(words)
    requires forall j :: 0 <= j < |words| ==> Read(X64, m, EvalOperand(l, d + j)) == words[j]
    requires CodeAt(image.code, pc, MoveAll(X64, SyscallMoves(l, |words|, d))
               + ([KernelCall(|words|)] + Move(X64, EvalOperand(l, d), Reg(0))))
    ensures Evaluates(image, l, d, true, FinishSyscall(image.program, words, m.out), fuel, m, pc,
              |MoveAll(X64, SyscallMoves(l, |words|, d))| + (1 + |Move(X64, EvalOperand(l, d), Reg(0))|), n)
  {
    hide Same, EvalWrites, Sound, Run, EvalOperand, SyscallMoves, MoveAll, Move, Bindings, RunBlock, FinishSyscall, SyscallArguments;
    var moves := MoveAll(X64, SyscallMoves(l, |words|, d));
    var tail := [KernelCall(|words|)] + Move(X64, EvalOperand(l, d), Reg(0));
    CodeAtSplit(image.code, pc, moves, tail);
    SyscallFilled(image, l, d, words, m);
    var m1 := RunBlock(X64, moves, 0, m).m;
    var n1 := BlockRuns(image, moves, 0, m, pc);
    var n2 := SyscallCompletes(image, l, d, fuel, words, m1, pc + |moves|);
    Prefixed(image, l, d, true, FinishSyscall(image.program, words, m.out), fuel, m, pc, m1, pc + |moves|, |moves| + |tail|, |tail|, n1, n2);
    n := n1 + n2;
  }

  /** The seven boundary registers by name. */
  ghost predicate BoundaryHolds(m: Machine, words: seq<Word>) {
    && (|words| > 0 ==> Get(m.regs, RAX) == words[0]) && (|words| > 1 ==> Get(m.regs, RDI) == words[1])
    && (|words| > 2 ==> Get(m.regs, RSI) == words[2]) && (|words| > 3 ==> Get(m.regs, RDX) == words[3])
    && (|words| > 4 ==> Get(m.regs, R10) == words[4]) && (|words| > 5 ==> Get(m.regs, R8) == words[5])
    && (|words| > 6 ==> Get(m.regs, R9) == words[6])
  }

  lemma ArgumentsAreHeld(m: Machine, words: seq<Word>)
    requires |words| <= 7 && SyscallArguments(m, |words|) == words
    ensures BoundaryHolds(m, words)
  {
    forall i | 0 <= i < |words| ensures Get(m.regs, KERNEL_REGISTERS[i]) == words[i] {
      assert SyscallArguments(m, |words|)[i] == words[i];
    }
  }

  /**
   When the machine asks the kernel, each boundary register holds the value of
   the argument in its place, the arguments evaluated from left to right.
   */
  lemma SyscallAsks(image: Image, layouts: seq<Layout>, l: Layout, fuel: nat,
      arguments: seq<Expr>, d: nat, env: Env, m: Machine, pc: int) returns (n: nat)
    requires Compiled(image, layouts) && Ready(image, l, env, m) && Lowerable(image, l, Expr.Syscall(arguments), d)
    requires CodeAt(image.code, pc, ExprCode(image.target, l, Expr.Syscall(arguments), d))
    requires EvalEach(image.program, fuel, arguments, env, m.out).Values?
    ensures var each, s := EvalEach(image.program, fuel, arguments, env, m.out), Run(image, Running(pc, m), n);
      && s.Running? && 0 <= s.pc < |image.code| && image.code[s.pc] == KernelCall(|arguments|)
      && s.m.out == each.out && |each.words| == |arguments| && BoundaryHolds(s.m, each.words)
  {
    hide *;
    var e := Expr.Syscall(arguments);
    EachOfSyscall(image.program, fuel, arguments, env, m.out);
    SyscallFacts(image, l, e, d);
    SyscallSplits(image, l, arguments, d, pc);
    var first := ArgumentsCode(image.target, l, e, 0, d);
    var n1, m1 := ArgumentsReached(image, layouts, l, fuel, e, d, env, m, pc);
    var n2 := BoundaryReached(image, l, d, m1, pc + |first|, EvalEach(image.program, fuel, arguments, env, m.out).words);
    RunPlus(image, Running(pc, m), n1, n2);
    n := n1 + n2;
  }

  lemma SyscallSplits(image: Image, l: Layout, arguments: seq<Expr>, d: nat, pc: int)
    requires CodeAt(image.code, pc, ExprCode(image.target, l, Expr.Syscall(arguments), d))
    ensures var t := image.target; var first := ArgumentsCode(t, l, Expr.Syscall(arguments), 0, d);
      && CodeAt(image.code, pc, first)
      && CodeAt(image.code, pc + |first|, MoveAll(t, SyscallMoves(l, |arguments|, d))
                + ([KernelCall(|arguments|)] + Move(t, EvalOperand(l, d), Reg(0))))
  {
    hide ArgumentsCode, SyscallMoves, MoveAll, Move, EvalOperand, CodeAt;
    var t := image.target;
    CodeAtSplit(image.code, pc, ArgumentsCode(t, l, Expr.Syscall(arguments), 0, d),
      MoveAll(t, SyscallMoves(l, |arguments|, d)) + ([KernelCall(|arguments|)] + Move(t, EvalOperand(l, d), Reg(0))));
  }

  lemma ArgumentsReached(image: Image, layouts: seq<Layout>, l: Layout, fuel: nat,
      e: Expr, d: nat, env: Env, m: Machine, pc: int) returns (n: nat, m1: Machine)
    requires e.Syscall? && Compiled(image, layouts) && Ready(image, l, env, m) && Lowerable(image, l, e, d)
    requires CodeAt(image.code, pc, ArgumentsCode(image.target, l, e, 0, d))
    requires EvalWritten(image.program, fuel, e, 0, env, m.out).Values?
    ensures var each := EvalWritten(image.program, fuel, e, 0, env, m.out);
      && Run(image, Running(pc, m), n) == Running(pc + |ArgumentsCode(image.target, l, e, 0, d)|, m1)
      && m1.out == each.out && |each.words| == |e.arguments| && LayoutOk(image, l) && InFrame(l, m1)
      && forall j :: 0 <= j < |each.words| ==> Read(image.target, m1, EvalOperand(l, d + j)) == each.words[j]
  {
    hide Same, EvalWrites, Sound, Run, WellFormedExpr, Crosses, EvalOperand, Compiled, Ready, EvalWritten, ArgumentsCode, Lowerable, Calls;
    SyscallFacts(image, l, e, d);
    ArgumentsLowerable(image, l, e, d);
    n := ArgumentsCorrect(image, layouts, l, fuel, e, 0, d, env, m, pc);
    m1 := Run(image, Running(pc, m), n).m;
    WritesWiden(l, d, true, d + 0, CallsFrom(e, 0));
    SameWider(image.target, m, m1, EvalWrites(l, d + 0, CallsFrom(e, 0)), EvalWrites(l, d, true));
    ReadyKept(image, l, env, m, m1, d, true);
    ReadyLayout(image, l, env, m1);
  }

  lemma BoundaryReached(image: Image, l: Layout, d: nat, m: Machine, pc: int, words: seq<Word>) returns (n: nat)
    requires image.target.X64? && LayoutOk(image, l) && InFrame(l, m) && |words| <= 7 && d + |words| <= l.evalDepth
    requires forall j :: 0 <= j < |words| ==> Read(X64, m, EvalOperand(l, d + j)) == words[j]
    requires CodeAt(image.code, pc, MoveAll(X64, SyscallMoves(l, |words|, d))
               + ([KernelCall(|words|)] + Move(X64, EvalOperand(l, d), Reg(0))))
    ensures var s := Run(image, Running(pc, m), n);
      && s.Running? && 0 <= s.pc < |image.code| && image.code[s.pc] == KernelCall(|words|)
      && s.m.out == m.out && BoundaryHolds(s.m, words)
  {
    hide Same, EvalWrites, Sound, Run, EvalOperand, SyscallMoves, MoveAll, Move, RunBlock, SyscallArguments, BoundaryHolds;
    var moves := MoveAll(X64, SyscallMoves(l, |words|, d));
    var tail := [KernelCall(|words|)] + Move(X64, EvalOperand(l, d), Reg(0));
    CodeAtSplit(image.code, pc, moves, tail);
    SyscallFilled(image, l, d, words, m);
    n := BlockRuns(image, moves, 0, m, pc);
    ArgumentsAreHeld(RunBlock(X64, moves, 0, m).m, words);
    TailStarts(image.code, pc + |moves|, tail);
  }

  lemma TailStarts(code: seq<Instr>, pc: int, tail: seq<Instr>)
    requires CodeAt(code, pc, tail) && tail != []
    ensures 0 <= pc < |code| && code[pc] == tail[0]
  {}

  // ----- positions in a body -----

  lemma ReturnLength(t: Target, l: Layout, self: nat, value: Expr, at: nat, epilogue: int, closing: bool, at': nat, epilogue': int)
    ensures |ReturnCode(t, l, self, value, at, epilogue, closing)| == |ReturnCode(t, l, self, value, at', epilogue', closing)|
  {}

  lemma StmtLength(t: Target, l: Layout, self: nat, s: Stmt, at: nat, epilogue: int, closing: bool, at': nat, epilogue': int)
    ensures |StmtCode(t, l, self, s, at, epilogue, closing)| == |StmtCode(t, l, self, s, at', epilogue', closing)|
  {
    match s
    case IfReturn(condition, value) =>
      var guard := GuardCode(t, l, condition);
      ReturnLength(t, l, self, value, at + |guard| + 1, epilogue, false, at' + |guard| + 1, epilogue');
    case ReturnStmt(value) => ReturnLength(t, l, self, value, at, epilogue, closing, at', epilogue');
    case _ =>
  }

  lemma {:induction false} BodyLength(t: Target, l: Layout, self: nat, body: seq<Stmt>, i: nat, at: nat, epilogue: int, epilogue': int)
    ensures |BodyCode(t, l, self, body, i, at, epilogue)| == |BodyCode(t, l, self, body, i, at, epilogue')|
    decreases |body| - i
  {
    hide StmtCode;
    if i < |body| {
      StmtLength(t, l, self, body[i], at, epilogue, i + 1 == |body|, at, epilogue');
      BodyLength(t, l, self, body, i + 1, at + |StmtCode(t, l, self, body[i], at, epilogue, i + 1 == |body|)|, epilogue, epilogue');
    }
  }

  /** The body of function f starts here. */
  function BodyStart(image: Image, l: Layout, f: nat): int
    requires f < |image.program.functions| && f < |image.entry|
  {
    image.entry[f] + |PrologueCode(image.target, l, image.program.functions[f].parameters)|
  }

  /** The code from statement i on lies `at` instructions into the body, with the epilogue where jumps expect it. */
  ghost predicate BodySite(image: Image, l: Layout, f: nat, i: nat, at: nat)
    requires f < |image.program.functions| && f < |image.entry|
  {
    var t, body := image.target, image.program.functions[f].body;
    var e := EpilogueAt(t, l, f, body);
    && CodeAt(image.code, BodyStart(image, l, f) + at, BodyCode(t, l, f, body, i, at, e))
    && at + |BodyCode(t, l, f, body, i, at, e)| + |ImplicitResult(body)| == e
    && CodeAt(image.code, BodyStart(image, l, f) + e - |ImplicitResult(body)|, ImplicitResult(body) + EpilogueCode(t, l))
  }

  lemma BodySiteStart(image: Image, layouts: seq<Layout>, f: nat)
    requires Compiled(image, layouts) && f < |layouts|
    ensures BodySite(image, layouts[f], f, 0, 0)
    ensures CodeAt(image.code, image.entry[f],
              PrologueCode(image.target, layouts[f], image.program.functions[f].parameters))
  {
    hide PrologueCode, BodyCode, EpilogueCode, CodeAt, LayoutFor, SyscallFreeStmt, WellFormed;
    var t, l, function_ := image.target, layouts[f], image.program.functions[f];
    assert CompiledFunction(image, l, f);
    var e := EpilogueAt(t, l, f, function_.body);
    var prologue := PrologueCode(t, l, function_.parameters);
    var body := BodyCode(t, l, f, function_.body, 0, 0, e);
    var tail := ImplicitResult(function_.body) + EpilogueCode(t, l);
    CodeAtSplit(image.code, image.entry[f], prologue, body + tail);
    CodeAtSplit(image.code, image.entry[f] + |prologue|, body, tail);
    BodyLength(t, l, f, function_.body, 0, 0, e, 0);
  }

  lemma BodySiteNext(image: Image, l: Layout, f: nat, i: nat, at: nat)
    requires f < |image.program.functions| && f < |image.entry| && i < |image.program.functions[f].body|
    requires BodySite(image, l, f, i, at)
    ensures var t, body := image.target, image.program.functions[f].body;
      var e := EpilogueAt(t, l, f, body);
      var code := StmtCode(t, l, f, body[i], at, e, i + 1 == |body|);
      && CodeAt(image.code, BodyStart(image, l, f) + at, code)
      && BodySite(image, l, f, i + 1, at + |code|)
  {
    hide EpilogueAt, EpilogueCode, StmtCode, CodeAt, BodyStart;
    var t, body := image.target, image.program.functions[f].body;
    var e := EpilogueAt(t, l, f, body);
    var code := StmtCode(t, l, f, body[i], at, e, i + 1 == |body|);
    CodeAtSplit(image.code, BodyStart(image, l, f) + at, code, BodyCode(t, l, f, body, i + 1, at + |code|, e));
  }

  // ----- leaving a body -----

  /** The epilogue takes the word in register 0 back to the caller. */
  lemma EpilogueRuns(image: Image, l: Layout, m0: Machine, m: Machine, pc: int, ret: int, fuel: nat) returns (n: nat)
    requires LayoutOk(image, l) && InBody(image.target, l, m0, m) && ReturnAddress(image.target, m0) == Return(ret)
    requires CodeAt(image.code, pc, EpilogueCode(image.target, l))
    ensures Finishes(image, Value(Get(m.regs, 0), m.out), fuel, m, pc, m0, ret, n)
  {
    hide RunBlock, Sound, TeardownCode, InBody, Run;
    var t := image.target;
    CodeAtSplit(image.code, pc, TeardownCode(t, l), [Ret]);
    TeardownRuns(t, l, m0, m);
    var m1 := RunBlock(t, TeardownCode(t, l), 0, m).m;
    var n1 := BlockRuns(image, TeardownCode(t, l), 0, m, pc);
    var m2 := RetRuns(image, m0, m1, pc + |TeardownCode(t, l)|, ret);
    RunPlus(image, Running(pc, m), n1, 1);
    FileFacts(t);
    n := n1 + 1;
  }

  lemma RetRuns(image: Image, m0: Machine, m: Machine, pc: int, ret: int) returns (m': Machine)
    requires CodeAt(image.code, pc, [Ret]) && Unwound(image.target, m0, m) && ReturnAddress(image.target, m0) == Return(ret)
    ensures Run(image, Running(pc, m), 1) == Running(ret, m')
    ensures Returned(image.target, m0, m', Get(m.regs, 0)) && m'.out == m.out
  {
    m' := if image.target.X64? then m.(sp := m.sp + 1) else m;
    TransferStep(image, Ret, pc, m, m', ret);
  }

  // ----- the activation while statements run -----

  /** m runs the body of a function entered in m0, with the bindings of env in place. */
  ghost predicate Active(image: Image, l: Layout, env: Env, m0: Machine, m: Machine) {
    Ready(image, l, env, m) && InBody(image.target, l, m0, m)
  }

  lemma ActiveKept(image: Image, l: Layout, env: Env, m0: Machine, m: Machine, m': Machine, d: nat, calls: bool)
    requires Active(image, l, env, m0, m) && (calls ==> BindingsSafe(l))
    requires Same(image.target, m, m', EvalWrites(l, d, calls))
    ensures Active(image, l, env, m0, m')
  {
    ReadyKept(image, l, env, m, m', d, calls);
    EvalWithinBody(l, d, calls);
    SameWider(image.target, m, m', EvalWrites(l, d, calls), BodyWrites(l));
    InBodyKept(image.target, l, m0, m, m');
  }

  /** Every expression of a body may be lowered at depth 0. */
  lemma StmtLowerable(image: Image, layouts: seq<Layout>, f: nat, i: nat)
    requires Compiled(image, layouts) && f < |layouts| && i < |image.program.functions[f].body|
    ensures var s, l := image.program.functions[f].body[i], layouts[f];
      && Lowerable(image, l, s.value, 0) && (s.IfReturn? ==> Lowerable(image, l, s.condition, 0))
      && (s.PrintStmt? ==> BindingsSafe(l)) && (s.Let? ==> s.slot < l.frameSlots)
      && LayoutOk(image, l)
  {
    var l, body := layouts[f], image.program.functions[f].body;
    assert CompiledFunction(image, l, f);
    assert WellFormedFunction(image.program.functions, image.program.functions[f]);
    StmtWithinBody(body, 0, i);
    var s := body[i];
    forall k: nat | k < l.evalDepth && StmtCrosses(s, k)
      ensures CallSafe(l, EvalOperand(l, k))
    {
      StmtCrossesWithinBody(body, 0, i, k);
    }
  }

  lemma {:induction false} StmtWithinBody(body: seq<Stmt>, j: nat, i: nat)
    requires j <= i < |body|
    ensures StmtNeed(body[i]) <= BodyNeed(body, j) && (StmtCalls(body[i]) ==> BodyCalls(body, j))
    decreases i - j
  {
    if j < i { StmtWithinBody(body, j + 1, i); }
  }

  lemma {:induction false} StmtCrossesWithinBody(body: seq<Stmt>, j: nat, i: nat, k: nat)
    requires j <= i < |body| && StmtCrosses(body[i], k)
    ensures BodyCrosses(body, j, k)
    decreases i - j
  {
    if j < i { StmtCrossesWithinBody(body, j + 1, i, k); }
  }

  // ----- guards -----

  /** The branch after the guard skips exactly when the condition is false. */
  ghost predicate Decides(t: Target, l: Layout, condition: Expr, m: Machine, value: int) {
    forall disp: int :: ExecLocal(t, SkipBranch(t, l, condition, disp), m) == Next(m, if value == 0 then disp else 0)
  }

  ghost predicate EvaluatesGuard(image: Image, l: Layout, condition: Expr, outcome: Outcome, fuel: nat,
      m: Machine, pc: int, len: nat, n: nat)
  {
    var s := Run(image, Running(pc, m), n);
    match outcome
    case Value(v, out) =>
      v.Int? ==>
        && s.Running? && s.pc == pc + len && s.m.out == out
        && Decides(image.target, l, condition, s.m, v.n)
        && Same(image.target, m, s.m, EvalWrites(l, 0, Calls(condition)))
    case Trap(kind, out) => s == Trapped(kind, out)
    case Timeout => s.Running? && n >= fuel
    case Stuck => true
  }

  lemma {:induction false} GuardCorrect(image: Image, layouts: seq<Layout>, l: Layout, fuel: nat,
      condition: Expr, env: Env, m: Machine, pc: int) returns (n: nat)
    requires Compiled(image, layouts) && Ready(image, l, env, m) && Lowerable(image, l, condition, 0)
    requires CodeAt(image.code, pc, GuardCode(image.target, l, condition))
    ensures EvaluatesGuard(image, l, condition, Eval(image.program, fuel, condition, env, m.out), fuel, m, pc,
                           |GuardCode(image.target, l, condition)|, n)
    decreases fuel, 1, condition, 4, 0
  {
    hide Same, EvalWrites, Run, Compiled, Ready, Lowerable, EvaluatesGuard, CodeAt, GuardCode, Eval;
    if condition.Binary? && IsComparison(condition.op) {
      n := ComparisonGuard(image, layouts, l, fuel, condition, env, m, pc);
    } else {
      n := TruthGuard(image, layouts, l, fuel, condition, env, m, pc);
    }
  }

  lemma {:induction false} ComparisonGuard(image: Image, layouts: seq<Layout>, l: Layout, fuel: nat,
      condition: Expr, env: Env, m: Machine, pc: int) returns (n: nat)
    requires condition.Binary? && IsComparison(condition.op)
    requires Compiled(image, layouts) && Ready(image, l, env, m) && Lowerable(image, l, condition, 0)
    requires CodeAt(image.code, pc, GuardCode(image.target, l, condition))
    ensures EvaluatesGuard(image, l, condition, Eval(image.program, fuel, condition, env, m.out), fuel, m, pc,
                           |GuardCode(image.target, l, condition)|, n)
    decreases fuel, 1, condition, 3, 0
  {
    hide Same, EvalWrites, Sound, Run, WellFormedExpr, Crosses, EvalOperand, Compiled, Ready, CompareCode, FinishBinary, Decides;
    var t := image.target;
    var left, right := condition.left, condition.right;
    var first, second := ExprCode(t, l, left, 0), ExprCode(t, l, right, 1);
    var last := CompareCode(t, EvalOperand(l, 0), EvalOperand(l, 1));
    CodeAtSplit(image.code, pc, first, second + last);
    CodeAtSplit(image.code, pc + |first|, second, last);
    var n1 := PairCorrect(image, layouts, l, fuel, condition, left, right, 0, env, m, pc);
    var pair := EvalPair(image.program, fuel, left, right, env, m.out);
    PairBindings(image, l, condition, left, right, 0);
    ReadyLayout(image, l, env, m);
    if pair.Both? {
      var m1 := Run(image, Running(pc, m), n1).m;
      if pair.a.Int? && pair.b.Int? {
        var n2, m2 := CompareDecided(image, l, condition, m1, pc + |first| + |second|, pair.a, pair.b);
        RunPlus(image, Running(pc, m), n1, n2);
        SameTrans(t, m, m1, m2, EvalWrites(l, 0, Calls(condition)));
        n := n1 + n2;
      } else {
        StuckBinary(condition.op, pair.a, pair.b, m1.out);
        n := n1;
      }
    } else {
      n := n1;
    }
  }

  lemma CompareDecided(image: Image, l: Layout, condition: Expr, m: Machine, pc: int, a: Word, b: Word)
    returns (n: nat, m': Machine)
    requires condition.Binary? && IsComparison(condition.op) && LayoutOk(image, l) && 2 <= l.evalDepth && a.Int? && b.Int?
    requires Read(image.target, m, EvalOperand(l, 0)) == a && Read(image.target, m, EvalOperand(l, 1)) == b
    requires CodeAt(image.code, pc, CompareCode(image.target, EvalOperand(l, 0), EvalOperand(l, 1)))
    ensures Run(image, Running(pc, m), n) == Running(pc + |CompareCode(image.target, EvalOperand(l, 0), EvalOperand(l, 1))|, m')
    ensures m'.out == m.out && Same(image.target, m, m', EvalWrites(l, 0, Calls(condition)))
    ensures var r := FinishBinary(condition.op, a, b, m.out);
      r.Value? && r.out == m.out && r.word.Int? && Decides(image.target, l, condition, m', r.word.n)
  {
    hide Same, Run, RunBlock, CompareCode, EvalOperand, Calls;
    var t := image.target;
    EvalUsable(l, 0);
    EvalUsable(l, 1);
    var code := CompareCode(t, EvalOperand(l, 0), EvalOperand(l, 1));
    CompareLeaf(t, EvalOperand(l, 0), EvalOperand(l, 1), m);
    m' := RunBlock(t, code, 0, m).m;
    n := BlockRuns(image, code, 0, m, pc);
    OnlyIsSame(t, m, m', Reg(0));
    ScratchWithin(l, 0, Calls(condition), t);
    SameWider(t, m, m', Just(l.file, Reg(0)), EvalWrites(l, 0, Calls(condition)));
    FlagsGuard(t, l, condition, m', a.n, b.n);
  }

  lemma ScratchWithin(l: Layout, d: nat, calls: bool, t: Target)
    requires l.file == FileOf(t)
    ensures Just(l.file, Reg(0)) <= EvalWrites(l, d, calls)
  {
    FileFacts(t);
    ArgumentRegisters(t);
  }

  /** After a comparison leaf the skip branch decides as Apply does. */
  lemma FlagsGuard(t: Target, l: Layout, condition: Expr, m: Machine, a: Int64, b: Int64)
    requires condition.Binary? && IsComparison(condition.op) && m.flags == FlagsOfDifference(a, b)
    ensures var r := Apply(condition.op, a, b); r.Exactly? && Decides(t, l, condition, m, r.n)
  {
    FlagsDecide(a, b);
    CompareDecides(condition.op, a, b);
    var c := CondOf(condition.op);
    assert Holds(Inverse(c), m.flags) == !Holds(c, m.flags);
  }

  lemma {:induction false} TruthGuard(image: Image, layouts: seq<Layout>, l: Layout, fuel: nat,
      condition: Expr, env: Env, m: Machine, pc: int) returns (n: nat)
    requires !(condition.Binary? && IsComparison(condition.op))
    requires Compiled(image, layouts) && Ready(image, l, env, m) && Lowerable(image, l, condition, 0)
    requires CodeAt(image.code, pc, GuardCode(image.target, l, condition))
    ensures EvaluatesGuard(image, l, condition, Eval(image.program, fuel, condition, env, m.out), fuel, m, pc,
                           |GuardCode(image.target, l, condition)|, n)
    decreases fuel, 1, condition, 3, 0
  {
    hide Same, EvalWrites, Sound, Run, WellFormedExpr, Crosses, EvalOperand, Compiled, Ready, Eval, Decides, ExprCode;
    var t := image.target;
    var o := EvalOperand(l, 0);
    var first, last := ExprCode(t, l, condition, 0), TestCode(t, o);
    assert GuardCode(t, l, condition) == first + last;
    CodeAtSplit(image.code, pc, first, last);
    var n1 := ExprCorrect(image, layouts, l, fuel, condition, 0, env, m, pc);
    var outcome := Eval(image.program, fuel, condition, env, m.out);
    if outcome.Value? && outcome.word.Int? {
      var m1 := Run(image, Running(pc, m), n1).m;
      GuardDepth(image, l, condition);
      ReadyLayout(image, l, env, m);
      var n2, m2 := TestDecided(image, l, condition, m1, pc + |first|, outcome.word);
      RunPlus(image, Running(pc, m), n1, n2);
      SameTrans(t, m, m1, m2, EvalWrites(l, 0, Calls(condition)));
      n := n1 + n2;
    } else {
      n := n1;
    }
  }

  lemma GuardDepth(image: Image, l: Layout, e: Expr)
    requires Lowerable(image, l, e, 0)
    ensures 0 < l.evalDepth
  {}

  /** What precedes the branch on a materialised truth value. */
  function TestCode(t: Target, o: Operand): seq<Instr> {
    match t
    case X64 => if o.Reg? then [Test(o.reg)] else [Mov(Reg(RAX), o), Test(RAX)]
    case A64 => A64Load(o, 0)
  }

  lemma TestDecided(image: Image, l: Layout, condition: Expr, m: Machine, pc: int, a: Word) returns (n: nat, m': Machine)
    requires !(condition.Binary? && IsComparison(condition.op)) && LayoutOk(image, l) && 0 < l.evalDepth && a.Int?
    requires Read(image.target, m, EvalOperand(l, 0)) == a
    requires CodeAt(image.code, pc, TestCode(image.target, EvalOperand(l, 0)))
    ensures Run(image, Running(pc, m), n) == Running(pc + |TestCode(image.target, EvalOperand(l, 0))|, m')
    ensures m'.out == m.out && Same(image.target, m, m', EvalWrites(l, 0, Calls(condition)))
    ensures Decides(image.target, l, condition, m', a.n)
  {
    hide Same, Run, RunBlock, EvalOperand, Calls, Decides, Sound, EvalWrites;
    var t := image.target;
    var o := EvalOperand(l, 0);
    EvalUsable(l, 0);
    TestRuns(t, l, condition, o, m, a.n);
    m' := RunBlock(t, TestCode(t, o), 0, m).m;
    n := BlockRuns(image, TestCode(t, o), 0, m, pc);
    OnlyIsSame(t, m, m', Reg(0));
    ScratchWithin(l, 0, Calls(condition), t);
    SameWider(t, m, m', Just(l.file, Reg(0)), EvalWrites(l, 0, Calls(condition)));
  }

  lemma TestRuns(t: Target, l: Layout, condition: Expr, o: Operand, m: Machine, a: Int64)
    requires !(condition.Binary? && IsComparison(condition.op)) && o == EvalOperand(l, 0) && Usable(FileOf(t), o)
    requires Read(t, m, o) == Int(a)
    ensures RunBlock(t, TestCode(t, o), 0, m).Falls?
    ensures var m' := RunBlock(t, TestCode(t, o), 0, m).m;
      m'.out == m.out && Only(t, m, m', Reg(0)) && Decides(t, l, condition, m', a)
  {
    if t.A64? {
      LoadLeaf(o, 0, m);
      var m1 := RunBlock(t, A64Load(o, 0), 0, m).m;
      TestA64(l, condition, m1, a);
    } else {
      TestX64(l, condition, o, m, a);
    }
  }

  lemma TestA64(l: Layout, condition: Expr, m: Machine, a: Int64)
    requires !(condition.Binary? && IsComparison(condition.op))
    requires Get(m.regs, A64Register(EvalOperand(l, 0), 0)) == Int(a)
    ensures Decides(A64, l, condition, m, a)
  {}

  lemma TestX64(l: Layout, condition: Expr, o: Operand, m: Machine, a: Int64)
    requires !(condition.Binary? && IsComparison(condition.op)) && Usable(X64_FILE, o) && Read(X64, m, o) == Int(a)
    ensures RunBlock(X64, TestCode(X64, o), 0, m).Falls?
    ensures var m' := RunBlock(X64, TestCode(X64, o), 0, m).m;
      m'.out == m.out && Only(X64, m, m', Reg(0)) && Decides(X64, l, condition, m', a)
  {
    hide Only, Decides, RunBlock;
    if o.Reg? {
      TestRegister(l, condition, o.reg, m, a);
    } else {
      RaxLoad(o, m);
      var m1 := m.(regs := m.regs[RAX := Int(a)]);
      TestRegister(l, condition, RAX, m1, a);
      BlockAppend(X64, [Mov(Reg(RAX), o)], [Test(RAX)], m);
      assert TestCode(X64, o) == [Mov(Reg(RAX), o)] + [Test(RAX)];
      TestOnly(m, m1, RunBlock(X64, [Test(RAX)], 0, m1).m, a);
    }
  }

  lemma TestOnly(m: Machine, m1: Machine, m2: Machine, a: Int64)
    requires m1 == m.(regs := m.regs[RAX := Int(a)]) && Only(X64, m1, m2, Reg(0))
    ensures Only(X64, m, m2, Reg(0))
  {}

  lemma TestRegister(l: Layout, condition: Expr, r: nat, m: Machine, a: Int64)
    requires !(condition.Binary? && IsComparison(condition.op)) && Get(m.regs, r) == Int(a)
    ensures RunBlock(X64, [Test(r)], 0, m).Falls?
    ensures var m' := RunBlock(X64, [Test(r)], 0, m).m;
      m'.out == m.out && Only(X64, m, m', Reg(0)) && Decides(X64, l, condition, m', a)
  {
    OneStep(X64, Test(r), m);
  }

  // ----- returning -----

  lemma {:induction false} ReturnCorrect(image: Image, layouts: seq<Layout>, f: nat, fuel: nat, value: Expr,
      at: nat, epilogue: int, closing: bool, env: Env, m0: Machine, m: Machine, ret: int) returns (n: nat)
    requires f < |image.program.functions| && f < |image.entry|
    requires Compiled(image, layouts) && f < |layouts| && Active(image, layouts[f], env, m0, m)
    requires Lowerable(image, layouts[f], value, 0) && ReturnAddress(image.target, m0) == Return(ret)
    requires var l := layouts[f];
      var code := ReturnCode(image.target, l, f, value, at, epilogue, closing);
      && CodeAt(image.code, BodyStart(image, l, f) + at, code)
      && CodeAt(image.code, BodyStart(image, l, f) + epilogue, EpilogueCode(image.target, l))
      && (closing ==> at + |code| == epilogue)
    ensures Finishes(image, Eval(image.program, fuel, value, env, m.out), fuel, m, BodyStart(image, layouts[f], f) + at, m0, ret, n)
    decreases fuel, 1, value, 5, 0
  {
    hide Same, EvalWrites, Run, Compiled, Lowerable, Finishes, CodeAt, EpilogueCode, Eval, Active, BodyStart, TailCode;
    if IsTail(value) {
      n := TailCorrect(image, layouts, f, fuel, value, at, env, m0, m, ret);
    } else {
      n := PlainReturn(image, layouts, f, fuel, value, at, epilogue, closing, env, m0, m, ret);
    }
  }

  lemma {:induction false} PlainReturn(image: Image, layouts: seq<Layout>, f: nat, fuel: nat, value: Expr,
      at: nat, epilogue: int, closing: bool, env: Env, m0: Machine, m: Machine, ret: int) returns (n: nat)
    requires f < |image.program.functions| && f < |image.entry|
    requires !IsTail(value) && Compiled(image, layouts) && f < |layouts| && Active(image, layouts[f], env, m0, m)
    requires Lowerable(image, layouts[f], value, 0) && ReturnAddress(image.target, m0) == Return(ret)
    requires var l := layouts[f];
      var code := ReturnCode(image.target, l, f, value, at, epilogue, closing);
      && CodeAt(image.code, BodyStart(image, l, f) + at, code)
      && CodeAt(image.code, BodyStart(image, l, f) + epilogue, EpilogueCode(image.target, l))
      && (closing ==> at + |code| == epilogue)
    ensures Finishes(image, Eval(image.program, fuel, value, env, m.out), fuel, m, BodyStart(image, layouts[f], f) + at, m0, ret, n)
    decreases fuel, 1, value, 4, 0
  {
    hide Same, EvalWrites, Run, Compiled, EpilogueCode, Eval, BodyStart, ExprCode, Move, InBody, Bindings, Sound, EvalOperand,
         WellFormedExpr, Calls, Crosses;
    var t, l := image.target, layouts[f];
    var pc := BodyStart(image, l, f) + at;
    var first, second := ExprCode(t, l, value, 0), Move(t, Reg(0), EvalOperand(l, 0));
    var jump: seq<Instr> := if closing then [] else [Jmp(epilogue - (at + |first + second| + 1))];
    CodeAtSplit(image.code, pc, first + second, jump);
    CodeAtSplit(image.code, pc, first, second);
    var n1 := ExprCorrect(image, layouts, l, fuel, value, 0, env, m, pc);
    var outcome := Eval(image.program, fuel, value, env, m.out);
    if outcome.Value? {
      var m1 := Run(image, Running(pc, m), n1).m;
      LowerableBindings(image, l, value, 0);
      ActiveKept(image, l, env, m0, m, m1, 0, Calls(value));
      var n2 := ResultReturned(image, l, env, m0, m1, pc + |first|, jump, BodyStart(image, l, f) + epilogue, ret, fuel);
      FinishesLater(image, outcome, fuel, m, pc, m1, pc + |first|, m0, ret, n1, n2);
      n := n1 + n2;
    } else {
      n := n1;
    }
  }

  /** The rest of a return, once the value stands at depth 0. */
  lemma ResultReturned(image: Image, l: Layout, env: Env, m0: Machine, m: Machine, pc: int,
      jump: seq<Instr>, epilogue: int, ret: int, fuel: nat) returns (n: nat)
    requires Active(image, l, env, m0, m) && 0 < l.evalDepth && LayoutOk(image, l)
    requires ReturnAddress(image.target, m0) == Return(ret)
    requires var second := Move(image.target, Reg(0), EvalOperand(l, 0));
      && CodeAt(image.code, pc, second) && CodeAt(image.code, pc + |second|, jump)
      && ((jump == [] && epilogue == pc + |second|) || jump == [Jmp(epilogue - (pc + |second| + 1))])
    requires CodeAt(image.code, epilogue, EpilogueCode(image.target, l))
    ensures Finishes(image, Value(Read(image.target, m, EvalOperand(l, 0)), m.out), fuel, m, pc, m0, ret, n)
  {
    hide Same, EvalWrites, Run, EpilogueCode, Move, InBody, Bindings, Sound, EvalOperand, Finishes;
    var after := pc + |Move(image.target, Reg(0), EvalOperand(l, 0))|;
    var outcome := Value(Read(image.target, m, EvalOperand(l, 0)), m.out);
    var n1, m1 := ResultMoved(image, l, env, m0, m, pc);
    var n2 := JumpRuns(image, jump, m1, after, epilogue);
    var n3 := EpilogueRuns(image, l, m0, m1, epilogue, ret, fuel);
    FinishesLater(image, outcome, fuel, m1, after, m1, epilogue, m0, ret, n2, n3);
    FinishesLater(image, outcome, fuel, m, pc, m1, after, m0, ret, n1, n2 + n3);
    n := n1 + (n2 + n3);
  }

  lemma LowerableBindings(image: Image, l: Layout, e: Expr, d: nat)
    requires Lowerable(image, l, e, d)
    ensures Calls(e) ==> BindingsSafe(l)
    ensures d < l.evalDepth
  {}

  /** Either nothing, or one branch forward. */
  lemma JumpRuns(image: Image, jump: seq<Instr>, m: Machine, pc: int, target: int) returns (n: nat)
    requires CodeAt(image.code, pc, jump)
    requires (jump == [] && target == pc) || jump == [Jmp(target - (pc + 1))]
    ensures Run(image, Running(pc, m), n) == Running(target, m)
  {
    if jump == [] {
      n := 0;
    } else {
      n := 1;
      assert image.code[pc] == jump[0];
      assert Run(image, Running(target, m), 0) == Running(target, m);
    }
  }

  /** The value of depth 0 moves into register 0. */
  lemma ResultMoved(image: Image, l: Layout, env: Env, m0: Machine, m: Machine, pc: int) returns (n: nat, m': Machine)
    requires Active(image, l, env, m0, m) && 0 < l.evalDepth
    requires CodeAt(image.code, pc, Move(image.target, Reg(0), EvalOperand(l, 0)))
    ensures Run(image, Running(pc, m), n) == Running(pc + |Move(image.target, Reg(0), EvalOperand(l, 0))|, m')
    ensures m'.out == m.out && Get(m'.regs, 0) == Read(image.target, m, EvalOperand(l, 0))
    ensures InBody(image.target, l, m0, m')
  {
    hide Same, EvalWrites, Run, RunBlock, Bindings, Sound, Move, EvalOperand, InBody;
    var t := image.target;
    var code := Move(t, Reg(0), EvalOperand(l, 0));
    MoveLeaf(t, Reg(0), EvalOperand(l, 0), m);
    m' := RunBlock(t, code, 0, m).m;
    n := BlockRuns(image, code, 0, m, pc);
    OnlyIsSame(t, m, m', Reg(0));
    ScratchWithin(l, 0, false, t);
    EvalWithinBody(l, 0, false);
    SameWider(t, m, m', Just(l.file, Reg(0)), BodyWrites(l));
    InBodyKept(t, l, m0, m, m');
  }

  // ----- tail calls -----

  lemma SelfOrderly(image: Image, l: Layout, order: seq<nat>, m: Machine)
    requires LayoutOk(image, l) && InFrame(l, m) && IsPermutation(order) && |order| <= l.frameSlots && |order| <= l.evalDepth
    ensures Orderly(SelfMoves(l, order)) && Above(image.target, m, SelfMoves(l, order))
    ensures Destinations(SelfMoves(l, order)) <= BodyWrites(l)
  {
    var t := image.target;
    var moves := SelfMoves(l, order);
    forall i | 0 <= i < |moves|
      ensures moves[i] == (ValueOperand(l, order[i]), EvalOperand(l, i))
      ensures order[i] < l.frameSlots
      ensures moves[i].0.Slot? ==> SlotAddress(t, m, moves[i].0.slot) >= m.sp
      ensures moves[i].1.Slot? ==> SlotAddress(t, m, moves[i].1.slot) >= m.sp
      ensures moves[i].0 != Reg(0) && moves[i].1 != Reg(0) && moves[i].0 in BodyWrites(l)
    {
      SelfMoveFacts(image, l, order, m, i);
    }
    forall i, j | 0 <= i < j < |moves|
      ensures moves[i].0 != moves[j].0 && moves[i].0 != moves[j].1
    {
      assert order[i] != order[j];
    }
    ScratchWithin(l, 0, false, t);
    EvalWithinBody(l, 0, false);
    assert Reg(0) in Just(l.file, Reg(0));
  }

  lemma SelfMoveFacts(image: Image, l: Layout, order: seq<nat>, m: Machine, i: nat)
    requires LayoutOk(image, l) && InFrame(l, m) && i < |order| && order[i] < l.frameSlots && i < l.evalDepth
    ensures var t := image.target;
      var into, from := ValueOperand(l, order[i]), EvalOperand(l, i);
      && (into.Slot? ==> SlotAddress(t, m, into.slot) >= m.sp)
      && (from.Slot? ==> SlotAddress(t, m, from.slot) >= m.sp)
      && into != Reg(0) && from != Reg(0) && into in BodyWrites(l)
  {
    ArgumentRegisters(image.target);
    ValueInFrame(image.target, l, m, order[i]);
    EvalInFrame(image.target, l, m, i);
    ValueWithinBody(l, order[i]);
  }

  /** A self tail call is a simultaneous assignment of the parameters. */
  lemma SelfMovesRun(image: Image, l: Layout, env: Env, order: seq<nat>, words: seq<Word>, m0: Machine, m: Machine, pc: int)
    returns (n: nat, m': Machine)
    requires Active(image, l, env, m0, m) && IsPermutation(order) && |order| <= l.frameSlots && |order| <= l.evalDepth
    requires |words| == |order| && forall j :: 0 <= j < |words| ==> Read(image.target, m, EvalOperand(l, j)) == words[j]
    requires CodeAt(image.code, pc, MoveAll(image.target, SelfMoves(l, order)))
    ensures Run(image, Running(pc, m), n) == Running(pc + |MoveAll(image.target, SelfMoves(l, order))|, m')
    ensures m'.out == m.out && Active(image, l, Bind(Place(order, words)), m0, m')
  {
    hide Same, Run, RunBlock, Bindings, Sound, SelfMoves, MoveAll, InBody, Orderly, Above, Placed, IsPermutation;
    var t := image.target;
    var moves := SelfMoves(l, order);
    SelfOrderly(image, l, order, m);
    MovesPlace(t, moves, m);
    m' := RunBlock(t, MoveAll(t, moves), 0, m).m;
    n := BlockRuns(image, MoveAll(t, moves), 0, m, pc);
    SameWider(t, m, m', Destinations(moves), BodyWrites(l));
    InBodyKept(t, l, m0, m, m');
    SelfBindings(t, l, order, words, m, m');
    InBodyInFrame(t, l, m0, m');
  }

  lemma InBodyInFrame(t: Target, l: Layout, m0: Machine, m: Machine)
    requires InBody(t, l, m0, m)
    ensures InFrame(l, m)
  {}

  lemma SelfBindings(t: Target, l: Layout, order: seq<nat>, words: seq<Word>, m: Machine, m': Machine)
    requires IsPermutation(order) && |words| == |order| && |order| <= l.frameSlots
    requires forall j :: 0 <= j < |words| ==> Read(t, m, EvalOperand(l, j)) == words[j]
    requires Placed(t, m, m', SelfMoves(l, order))
    ensures Bindings(t, l, Bind(Place(order, words)), m')
  {
    var moves := SelfMoves(l, order);
    forall s: nat | s in Bind(Place(order, words))
      ensures s < l.frameSlots && Read(t, m', ValueOperand(l, s)) == Bind(Place(order, words))[s]
    {
      SlotIsWritten(order, s);
      var w :| 0 <= w < |order| && order[w] == s;
      PlaceAt(order, words, w);
      assert moves[w] == (ValueOperand(l, s), EvalOperand(l, w));
      assert Read(t, m', moves[w].0) == Read(t, m, moves[w].1);
    }
  }

  /** Handing the frame over: afterwards the callee sees what this function saw at entry. */
  lemma HandOver(image: Image, l: Layout, order: seq<nat>, words: seq<Word>, env: Env, m0: Machine, m: Machine, pc: int)
    returns (n: nat, m': Machine)
    requires Active(image, l, env, m0, m) && IsPermutation(order) && |order| <= 6 && |order| <= l.evalDepth && |words| == |order|
    requires forall j :: 0 <= j < |words| ==> Read(image.target, m, EvalOperand(l, j)) == words[j]
    requires CodeAt(image.code, pc, MoveAll(image.target, BoundaryMoves(image.target, l, order, 0)) + TeardownCode(image.target, l))
    ensures Run(image, Running(pc, m), n) ==
      Running(pc + |MoveAll(image.target, BoundaryMoves(image.target, l, order, 0)) + TeardownCode(image.target, l)|, m')
    ensures m'.out == m.out && Unwound(image.target, m0, m')
    ensures forall s :: 0 <= s < |order| ==> Get(m'.regs, ArgumentRegister(image.target, s)) == Place(order, words)[s]
  {
    hide Same, EvalWrites, Run, RunBlock, Bindings, Sound, BoundaryMoves, MoveAll, InBody, IsPermutation, TeardownCode, Unwound, EvalOperand;
    var t := image.target;
    var moves := MoveAll(t, BoundaryMoves(t, l, order, 0));
    CodeAtSplit(image.code, pc, moves, TeardownCode(t, l));
    ZeroDepth(image, l, words, m);
    var n1, m1 := BoundaryRuns(image, l, order, 0, words, m, pc);
    EvalWithinBody(l, 0, true);
    SameWider(t, m, m1, EvalWrites(l, 0, true), BodyWrites(l));
    InBodyKept(t, l, m0, m, m1);
    TeardownRuns(t, l, m0, m1);
    m' := RunBlock(t, TeardownCode(t, l), 0, m1).m;
    var n2 := BlockRuns(image, TeardownCode(t, l), 0, m1, pc + |moves|);
    RunPlus(image, Running(pc, m), n1, n2);
    FileFacts(t);
    n := n1 + n2;
  }

  lemma ZeroDepth(image: Image, l: Layout, words: seq<Word>, m: Machine)
    requires forall j :: 0 <= j < |words| ==> Read(image.target, m, EvalOperand(l, j)) == words[j]
    ensures forall j :: 0 <= j < |words| ==> Read(image.target, m, EvalOperand(l, 0 + j)) == words[j]
  {}

  /** Returning from a tail-called function returns from this one. */
  lemma UnwoundReturns(image: Image, outcome: Outcome, fuel: nat, m: Machine, pc: int, m1: Machine, m0: Machine, ret: int, n: nat)
    requires Unwound(image.target, m0, m1) && Finishes(image, outcome, fuel, m, pc, m1, ret, n)
    ensures Finishes(image, outcome, fuel, m, pc, m0, ret, n)
  {
    hide Run, FileOf, ReturnAddress;
    if outcome.Value? {
      var m' := Run(image, Running(pc, m), n).m;
      ReturnedThrough(image.target, m0, m1, m', outcome.word);
    }
  }

  lemma ReturnedThrough(t: Target, m0: Machine, m1: Machine, m': Machine, v: Word)
    requires Unwound(t, m0, m1) && Returned(t, m1, m', v)
    ensures Returned(t, m0, m', v)
  {}

  lemma TailFacts(image: Image, layouts: seq<Layout>, f: nat, call: Expr)
    requires call.Call? && Compiled(image, layouts) && f < |layouts| && Lowerable(image, layouts[f], call, 0)
    ensures call.function_ < |image.program.functions| == |layouts| == |image.entry|
    ensures WrittenCount(call) == |call.order| == image.program.functions[call.function_].parameters <= 6
    ensures IsPermutation(call.order) && |call.order| <= layouts[f].evalDepth && BindingsSafe(layouts[f]) && LayoutOk(image, layouts[f])
    ensures call.function_ == f ==> |call.order| <= layouts[f].frameSlots
  {
    CallFacts(image, layouts, layouts[f], call, 0);
    assert CompiledFunction(image, layouts[f], f);
  }

  lemma {:induction false} TailCorrect(image: Image, layouts: seq<Layout>, f: nat, fuel: nat, call: Expr,
      at: nat, env: Env, m0: Machine, m: Machine, ret: int) returns (n: nat)
    requires f < |image.program.functions| && f < |image.entry|
    requires call.Call? && Compiled(image, layouts) && f < |layouts| && Active(image, layouts[f], env, m0, m)
    requires Lowerable(image, layouts[f], call, 0) && ReturnAddress(image.target, m0) == Return(ret)
    requires CodeAt(image.code, BodyStart(image, layouts[f], f) + at, TailCode(image.target, layouts[f], f, call, at))
    ensures Finishes(image, Eval(image.program, fuel, call, env, m.out), fuel, m, BodyStart(image, layouts[f], f) + at, m0, ret, n)
    decreases fuel, 1, call, 4, 0
  {
    hide Same, EvalWrites, Run, Compiled, Lowerable, BodyStart, ArgumentsCode, MoveAll, Move, InBody, Bindings, Sound, EvalOperand,
         TailCode, CodeAt, EvalWritten, RunFunction, IsPermutation, Ready;
    var t, l := image.target, layouts[f];
    var pc := BodyStart(image, l, f) + at;
    TailFacts(image, layouts, f, call);
    var first := ArgumentsCode(t, l, call, 0, 0);
    TailSplit(image, l, f, call, at, pc);
    ArgumentsLowerable(image, l, call, 0);
    var n1 := ArgumentsCorrect(image, layouts, l, fuel, call, 0, 0, env, m, pc);
    var arguments := EvalWritten(image.program, fuel, call, 0, env, m.out);
    if arguments.Values? {
      var m1 := Run(image, Running(pc, m), n1).m;
      WritesWiden(l, 0, true, 0 + 0, CallsFrom(call, 0));
      SameWider(t, m, m1, EvalWrites(l, 0 + 0, CallsFrom(call, 0)), EvalWrites(l, 0, true));
      ActiveKept(image, l, env, m0, m, m1, 0, true);
      ArgumentsAtZero(image, l, call, arguments.words, m1);
      var n2 := TailFromArguments(image, layouts, f, fuel, call, at, arguments.words, env, m0, m1, ret);
      FinishesLater(image, Called(image.program, fuel, call, arguments.words, m1.out), fuel, m, pc, m1, pc + |first|, m0, ret, n1, n2);
      n := n1 + n2;
    } else {
      AbortedIsFailure(image.program, fuel, call, env, m.out);
      n := n1;
    }
  }

  lemma ArgumentsAtZero(image: Image, l: Layout, call: Expr, words: seq<Word>, m: Machine)
    requires forall j :: 0 <= j < |words| ==> Read(image.target, m, EvalOperand(l, 0 + 0 + j)) == words[j]
    ensures forall j :: 0 <= j < |words| ==> Read(image.target, m, EvalOperand(l, j)) == words[j]
  {
    forall j | 0 <= j < |words|
      ensures Read(image.target, m, EvalOperand(l, j)) == words[j]
    {
      assert EvalOperand(l, 0 + 0 + j) == EvalOperand(l, j);
    }
  }

  /** What follows the arguments of a tail call. */
  function TailRest(t: Target, l: Layout, self: nat, call: Expr, at: nat): seq<Instr>
    requires call.Call?
  {
    if call.function_ == self then
      var moves := MoveAll(t, SelfMoves(l, call.order));
      moves + [Jmp(-(at + |ArgumentsCode(t, l, call, 0, 0)| + |moves| + 1))]
    else
      MoveAll(t, BoundaryMoves(t, l, call.order, 0)) + TeardownCode(t, l) + [TailJump(call.function_)]
  }

  lemma TailSplit(image: Image, l: Layout, f: nat, call: Expr, at: nat, pc: int)
    requires call.Call? && CodeAt(image.code, pc, TailCode(image.target, l, f, call, at))
    ensures CodeAt(image.code, pc, ArgumentsCode(image.target, l, call, 0, 0))
    ensures CodeAt(image.code, pc + |ArgumentsCode(image.target, l, call, 0, 0)|, TailRest(image.target, l, f, call, at))
  {
    hide ArgumentsCode, MoveAll, SelfMoves, BoundaryMoves, TeardownCode, CodeAt;
    var t := image.target;
    var first := ArgumentsCode(t, l, call, 0, 0);
    if call.function_ != f {
      var a, b := MoveAll(t, BoundaryMoves(t, l, call.order, 0)), TeardownCode(t, l);
      assert a + (b + [TailJump(call.function_)]) == a + b + [TailJump(call.function_)];
    }
    CodeAtSplit(image.code, pc, first, TailRest(t, l, f, call, at));
  }

  lemma {:induction false} TailFromArguments(image: Image, layouts: seq<Layout>, f: nat, fuel: nat, call: Expr,
      at: nat, words: seq<Word>, env: Env, m0: Machine, m: Machine, ret: int) returns (n: nat)
    requires f < |image.program.functions| && f < |image.entry|
    requires call.Call? && Compiled(image, layouts) && f < |layouts| && Active(image, layouts[f], env, m0, m)
    requires Lowerable(image, layouts[f], call, 0) && ReturnAddress(image.target, m0) == Return(ret)
    requires |words| == WrittenCount(call) && call.function_ < |image.program.functions|
    requires forall j :: 0 <= j < |words| ==> Read(image.target, m, EvalOperand(layouts[f], j)) == words[j]
    requires CodeAt(image.code, BodyStart(image, layouts[f], f) + at + |ArgumentsCode(image.target, layouts[f], call, 0, 0)|,
                    TailRest(image.target, layouts[f], f, call, at))
    ensures Finishes(image, Called(image.program, fuel, call, words, m.out), fuel, m,
              BodyStart(image, layouts[f], f) + at + |ArgumentsCode(image.target, layouts[f], call, 0, 0)|, m0, ret, n)
    decreases fuel, 1, call, 3, 0
  {
    hide Same, EvalWrites, Run, Compiled, Lowerable, BodyStart, ArgumentsCode, MoveAll, Move, InBody, Bindings, Sound, EvalOperand,
         CodeAt, RunFunction, IsPermutation, Active, Finishes, TailRest, Called;
    if call.function_ == f {
      n := SelfTail(image, layouts, f, fuel, call, at, words, env, m0, m, ret);
    } else {
      n := OtherTail(image, layouts, f, fuel, call, at, words, env, m0, m, ret);
    }
  }

  lemma {:induction false} SelfTail(image: Image, layouts: seq<Layout>, f: nat, fuel: nat, call: Expr,
      at: nat, words: seq<Word>, env: Env, m0: Machine, m: Machine, ret: int) returns (n: nat)
    requires f < |image.program.functions| && f < |image.entry|
    requires call.Call? && call.function_ == f
    requires Compiled(image, layouts) && f < |layouts| && Active(image, layouts[f], env, m0, m)
    requires Lowerable(image, layouts[f], call, 0) && ReturnAddress(image.target, m0) == Return(ret)
    requires |words| == WrittenCount(call) && call.function_ < |image.program.functions|
    requires forall j :: 0 <= j < |words| ==> Read(image.target, m, EvalOperand(layouts[f], j)) == words[j]
    requires CodeAt(image.code, BodyStart(image, layouts[f], f) + at + |ArgumentsCode(image.target, layouts[f], call, 0, 0)|,
                    TailRest(image.target, layouts[f], f, call, at))
    ensures Finishes(image, Called(image.program, fuel, call, words, m.out), fuel, m,
              BodyStart(image, layouts[f], f) + at + |ArgumentsCode(image.target, layouts[f], call, 0, 0)|, m0, ret, n)
    decreases fuel, 1, call, 2, 0
  {
    hide Same, EvalWrites, Run, Compiled, Lowerable, BodyStart, ArgumentsCode, MoveAll, Move, InBody, Bindings, Sound, EvalOperand,
         CodeAt, IsPermutation, Active, SelfMoves, BodySite, RunFrom, Bind, Place;
    var t, l := image.target, layouts[f];
    var start := BodyStart(image, l, f);
    var pc := start + at + |ArgumentsCode(t, l, call, 0, 0)|;
    TailFacts(image, layouts, f, call);
    var moves := MoveAll(t, SelfMoves(l, call.order));
    var jump := [Jmp(-(at + |ArgumentsCode(t, l, call, 0, 0)| + |moves| + 1))];
    CodeAtSplit(image.code, pc, moves, jump);
    var n1, m1 := SelfMovesRun(image, l, env, call.order, words, m0, m, pc);
    if fuel == 0 {
      n := n1;
    } else {
      BackJump(image, jump[0].disp, m1, pc + |moves|, start);
      BodySiteStart(image, layouts, f);
      var n3 := BodyCorrect(image, layouts, f, fuel - 1, 0, 0, Bind(Place(call.order, words)), m0, m1, ret);
      var outcome := RunFunction(image.program, fuel - 1, f, Place(call.order, words), m.out);
      FinishesAfterStep(image, outcome, fuel, m1, pc + |moves|, m1, start, m0, ret, n3);
      FinishesLater(image, outcome, fuel, m, pc, m1, pc + |moves|, m0, ret, n1, 1 + n3);
      n := n1 + (1 + n3);
    }
  }

  lemma BackJump(image: Image, disp: int, m: Machine, pc: int, target: int)
    requires CodeAt(image.code, pc, [Jmp(disp)]) && target == pc + 1 + disp
    ensures Run(image, Running(pc, m), 1) == Running(target, m)
  {
    assert image.code[pc] == [Jmp(disp)][0];
    assert Run(image, Running(target, m), 0) == Running(target, m);
  }

  lemma FinishesAfterStep(image: Image, outcome: Outcome, fuel: nat, m: Machine, pc: int,
      m1: Machine, pc1: int, m0: Machine, ret: int, n: nat)
    requires fuel > 0 && Run(image, Running(pc, m), 1) == Running(pc1, m1)
    requires Finishes(image, outcome, fuel - 1, m1, pc1, m0, ret, n)
    ensures Finishes(image, outcome, fuel, m, pc, m0, ret, 1 + n)
  {
    hide Run;
    RunPlus(image, Running(pc, m), 1, n);
  }

  lemma {:induction false} OtherTail(image: Image, layouts: seq<Layout>, f: nat, fuel: nat, call: Expr,
      at: nat, words: seq<Word>, env: Env, m0: Machine, m: Machine, ret: int) returns (n: nat)
    requires f < |image.program.functions| && f < |image.entry|
    requires call.Call? && call.function_ != f
    requires Compiled(image, layouts) && f < |layouts| && Active(image, layouts[f], env, m0, m)
    requires Lowerable(image, layouts[f], call, 0) && ReturnAddress(image.target, m0) == Return(ret)
    requires |words| == WrittenCount(call) && call.function_ < |image.program.functions|
    requires forall j :: 0 <= j < |words| ==> Read(image.target, m, EvalOperand(layouts[f], j)) == words[j]
    requires CodeAt(image.code, BodyStart(image, layouts[f], f) + at + |ArgumentsCode(image.target, layouts[f], call, 0, 0)|,
                    TailRest(image.target, layouts[f], f, call, at))
    ensures Finishes(image, Called(image.program, fuel, call, words, m.out), fuel, m,
              BodyStart(image, layouts[f], f) + at + |ArgumentsCode(image.target, layouts[f], call, 0, 0)|, m0, ret, n)
    decreases fuel, 1, call, 2, 0
  {
    hide Same, EvalWrites, Run, Compiled, Lowerable, BodyStart, ArgumentsCode, MoveAll, Move, InBody, Bindings, Sound, EvalOperand,
         CodeAt, IsPermutation, Active, BoundaryMoves, TeardownCode, RunFunction, Place, Unwound, ReturnAddress, ArgumentRegister;
    var t, l := image.target, layouts[f];
    var g := call.function_;
    var pc := BodyStart(image, l, f) + at + |ArgumentsCode(t, l, call, 0, 0)|;
    TailFacts(image, layouts, f, call);
    var leave := MoveAll(t, BoundaryMoves(t, l, call.order, 0)) + TeardownCode(t, l);
    CodeAtSplit(image.code, pc, leave, [TailJump(g)]);
    var n1, m1 := HandOver(image, l, call.order, words, env, m0, m, pc);
    if fuel == 0 {
      n := n1;
    } else {
      TailJumpStep(image, g, pc + |leave|, m1);
      PlaceSize(call.order, words);
      UnwoundReturn(image.target, m0, m1);
      var n2 := FunctionCorrect(image, layouts, fuel - 1, g, Place(call.order, words), m1, ret);
      var outcome := RunFunction(image.program, fuel - 1, g, Place(call.order, words), m1.out);
      UnwoundReturns(image, outcome, fuel - 1, m1, image.entry[g], m1, m0, ret, n2);
      FinishesAfterStep(image, outcome, fuel, m1, pc + |leave|, m1, image.entry[g], m0, ret, n2);
      FinishesLater(image, outcome, fuel, m, pc, m1, pc + |leave|, m0, ret, n1, 1 + n2);
      n := n1 + (1 + n2);
    }
  }

  lemma UnwoundReturn(t: Target, m0: Machine, m1: Machine)
    requires Unwound(t, m0, m1)
    ensures ReturnAddress(t, m1) == ReturnAddress(t, m0)
  {}

  lemma TailJumpStep(image: Image, g: nat, pc: int, m: Machine)
    requires CodeAt(image.code, pc, [TailJump(g)]) && g < |image.entry|
    ensures Run(image, Running(pc, m), 1) == Running(image.entry[g], m)
  {
    TransferStep(image, TailJump(g), pc, m, m, image.entry[g]);
  }

  // ----- statements -----

  predicate NoReturnBefore(body: seq<Stmt>, i: nat) {
    forall j :: 0 <= j < i && j < |body| ==> !body[j].ReturnStmt?
  }

  /** Running the statements of a body from the i-th on does what they mean, and returns. */
  lemma {:induction false} BodyCorrect(image: Image, layouts: seq<Layout>, f: nat, fuel: nat, i: nat, at: nat,
      env: Env, m0: Machine, m: Machine, ret: int) returns (n: nat)
    requires Compiled(image, layouts) && f < |layouts| && Active(image, layouts[f], env, m0, m)
    requires ReturnAddress(image.target, m0) == Return(ret)
    requires f < |image.program.functions| && f < |image.entry|
    requires i <= |image.program.functions[f].body| && NoReturnBefore(image.program.functions[f].body, i)
    requires BodySite(image, layouts[f], f, i, at)
    ensures Finishes(image, RunFrom(image.program, fuel, image.program.functions[f].body, i, env, m.out), fuel, m,
                     BodyStart(image, layouts[f], f) + at, m0, ret, n)
    decreases fuel, 2, |image.program.functions[f].body| - i
  {
    hide Same, EvalWrites, Run, Compiled, BodyStart, InBody, Bindings, Sound, EvalOperand, CodeAt, Active, ReturnAddress, BodySite,
         Finishes, Eval, StmtCode, NoReturnBefore;
    var body := image.program.functions[f].body;
    if i == |body| {
      n := BodyEnds(image, layouts, f, fuel, at, env, m0, m, ret);
    } else {
      match body[i]
      case IfReturn(_, _) => n := GuardedReturn(image, layouts, f, fuel, i, at, env, m0, m, ret);
      case ReturnStmt(_) => n := ReturnStatement(image, layouts, f, fuel, i, at, env, m0, m, ret);
      case PrintStmt(_) => n := PrintStatement(image, layouts, f, fuel, i, at, env, m0, m, ret);
      case Let(_, _) => n := LetStatement(image, layouts, f, fuel, i, at, env, m0, m, ret);
      case Evaluate(_) => n := EvaluateStatement(image, layouts, f, fuel, i, at, env, m0, m, ret);
    }
  }

  /** Falling off the end answers zero. */
  lemma BodyEnds(image: Image, layouts: seq<Layout>, f: nat, fuel: nat, at: nat,
      env: Env, m0: Machine, m: Machine, ret: int) returns (n: nat)
    requires Compiled(image, layouts) && f < |layouts| && Active(image, layouts[f], env, m0, m)
    requires ReturnAddress(image.target, m0) == Return(ret)
    requires f < |image.program.functions| && f < |image.entry|
    requires NoReturnBefore(image.program.functions[f].body, |image.program.functions[f].body|)
    requires BodySite(image, layouts[f], f, |image.program.functions[f].body|, at)
    ensures Finishes(image, Value(Int(0), m.out), fuel, m, BodyStart(image, layouts[f], f) + at, m0, ret, n)
  {
    hide Same, EvalWrites, Run, Compiled, BodyStart, InBody, Bindings, Sound, EvalOperand, ReturnAddress, EpilogueCode, EpilogueAt, RunBlock;
    var t, l := image.target, layouts[f];
    var body := image.program.functions[f].body;
    var pc := BodyStart(image, l, f) + at;
    assert !HasReturn(body);
    CodeAtSplit(image.code, pc, [Zero(0)], EpilogueCode(t, l));
    OneStep(t, Zero(0), m);
    var m1 := m.(regs := m.regs[0 := Int(0)]);
    var n1 := BlockRuns(image, [Zero(0)], 0, m, pc);
    ZeroOnly(t, m);
    OnlyIsSame(t, m, m1, Reg(0));
    ScratchWithin(l, 0, false, t);
    EvalWithinBody(l, 0, false);
    SameWider(t, m, m1, Just(l.file, Reg(0)), BodyWrites(l));
    InBodyKept(t, l, m0, m, m1);
    var n2 := EpilogueRuns(image, l, m0, m1, pc + 1, ret, fuel);
    FinishesLater(image, Value(Int(0), m.out), fuel, m, pc, m1, pc + 1, m0, ret, n1, n2);
    n := n1 + n2;
  }

  lemma ZeroOnly(t: Target, m: Machine)
    ensures ExecLocal(t, Zero(0), m) == On(m.(regs := m.regs[0 := Int(0)]))
    ensures Only(t, m, m.(regs := m.regs[0 := Int(0)]), Reg(0))
  {}

  lemma {:induction false} ReturnStatement(image: Image, layouts: seq<Layout>, f: nat, fuel: nat, i: nat, at: nat,
      env: Env, m0: Machine, m: Machine, ret: int) returns (n: nat)
    requires Compiled(image, layouts) && f < |layouts| && Active(image, layouts[f], env, m0, m)
    requires ReturnAddress(image.target, m0) == Return(ret)
    requires f < |image.program.functions| && f < |image.entry|
    requires i < |image.program.functions[f].body| && image.program.functions[f].body[i].ReturnStmt?
    requires BodySite(image, layouts[f], f, i, at)
    ensures Finishes(image, RunFrom(image.program, fuel, image.program.functions[f].body, i, env, m.out), fuel, m,
                     BodyStart(image, layouts[f], f) + at, m0, ret, n)
    decreases fuel, 1, image.program.functions[f].body[i].value, 6
  {
    hide Same, EvalWrites, Run, Compiled, BodyStart, InBody, Bindings, Sound, EvalOperand, CodeAt, Active, ReturnAddress, Finishes,
         Eval, ReturnCode, EpilogueCode, Lowerable, EpilogueAt, BodySite;
    var t, l := image.target, layouts[f];
    var body := image.program.functions[f].body;
    var e := EpilogueAt(t, l, f, body);
    BodySiteNext(image, l, f, i, at);
    EpilogueSite(image, l, f, i, at);
    StmtLowerable(image, layouts, f, i);
    ClosingReturn(image, l, f, i, at);
    n := ReturnCorrect(image, layouts, f, fuel, body[i].value, at, e, i + 1 == |body|, env, m0, m, ret);
  }

  lemma EpilogueSite(image: Image, l: Layout, f: nat, i: nat, at: nat)
    requires f < |image.program.functions| && f < |image.entry| && BodySite(image, l, f, i, at)
    ensures CodeAt(image.code, BodyStart(image, l, f) + EpilogueAt(image.target, l, f, image.program.functions[f].body),
                   EpilogueCode(image.target, l))
  {
    hide EpilogueAt, EpilogueCode, BodyStart, BodyCode;
    var body := image.program.functions[f].body;
    var e := EpilogueAt(image.target, l, f, body);
    CodeAtSplit(image.code, BodyStart(image, l, f) + e - |ImplicitResult(body)|, ImplicitResult(body), EpilogueCode(image.target, l));
  }

  /** The code of a return that is the body's last statement ends at the address EpilogueAt gives. */
  lemma ClosingReturn(image: Image, l: Layout, f: nat, i: nat, at: nat)
    requires f < |image.program.functions| && f < |image.entry| && BodySite(image, l, f, i, at)
    requires i < |image.program.functions[f].body| && image.program.functions[f].body[i].ReturnStmt?
    ensures var t, body := image.target, image.program.functions[f].body;
      var e := EpilogueAt(t, l, f, body);
      i + 1 == |body| ==> at + |ReturnCode(t, l, f, body[i].value, at, e, true)| == e
  {
    hide EpilogueAt, EpilogueCode, BodyStart, ReturnCode, CodeAt;
    var t, body := image.target, image.program.functions[f].body;
    var e := EpilogueAt(t, l, f, body);
    if i + 1 == |body| {
      assert HasReturn(body);
      assert BodyCode(t, l, f, body, i + 1, at + |StmtCode(t, l, f, body[i], at, e, true)|, e) == [];
    }
  }

  lemma SkipRuns(image: Image, l: Layout, condition: Expr, disp: int, m: Machine, pc: int, value: int)
    requires CodeAt(image.code, pc, [SkipBranch(image.target, l, condition, disp)])
    requires Decides(image.target, l, condition, m, value)
    ensures Run(image, Running(pc, m), 1) == Running(if value == 0 then pc + 1 + disp else pc + 1, m)
  {
    assert image.code[pc] == [SkipBranch(image.target, l, condition, disp)][0];
    var next := Running(if value == 0 then pc + 1 + disp else pc + 1, m);
    assert Step(image, Running(pc, m)) == next;
    assert Run(image, next, 0) == next;
  }

  lemma {:induction false} GuardedReturn(image: Image, layouts: seq<Layout>, f: nat, fuel: nat, i: nat, at: nat,
      env: Env, m0: Machine, m: Machine, ret: int) returns (n: nat)
    requires Compiled(image, layouts) && f < |layouts| && Active(image, layouts[f], env, m0, m)
    requires ReturnAddress(image.target, m0) == Return(ret)
    requires f < |image.program.functions| && f < |image.entry|
    requires i < |image.program.functions[f].body| && image.program.functions[f].body[i].IfReturn?
    requires NoReturnBefore(image.program.functions[f].body, i) && BodySite(image, layouts[f], f, i, at)
    ensures Finishes(image, RunFrom(image.program, fuel, image.program.functions[f].body, i, env, m.out), fuel, m,
                     BodyStart(image, layouts[f], f) + at, m0, ret, n)
    decreases fuel, 2, |image.program.functions[f].body| - i, 0
  {
    hide Same, EvalWrites, Run, Compiled, BodyStart, InBody, Bindings, Sound, EvalOperand, CodeAt, ReturnAddress, Active, Ready,
         ReturnCode, EpilogueCode, Lowerable, EpilogueAt, GuardCode, SkipBranch, Decides, BodySite, Eval;
    var t, l := image.target, layouts[f];
    var body := image.program.functions[f].body;
    var e := EpilogueAt(t, l, f, body);
    var pc := BodyStart(image, l, f) + at;
    var condition, value := body[i].condition, body[i].value;
    var guard := GuardCode(t, l, condition);
    var guarded := ReturnCode(t, l, f, value, at + |guard| + 1, e, false);
    var skip := [SkipBranch(t, l, condition, |guarded|)];
    BodySiteNext(image, l, f, i, at);
    EpilogueSite(image, l, f, i, at);
    StmtLowerable(image, layouts, f, i);
    CodeAtSplit(image.code, pc, guard, skip + guarded);
    CodeAtSplit(image.code, pc + |guard|, skip, guarded);
    ActiveReady(image, l, env, m0, m);
    var n1 := GuardCorrect(image, layouts, l, fuel, condition, env, m, pc);
    var outcome := Eval(image.program, fuel, condition, env, m.out);
    if outcome.Value? && outcome.word.Int? {
      var m1 := Run(image, Running(pc, m), n1).m;
      LowerableBindings(image, l, condition, 0);
      ActiveKept(image, l, env, m0, m, m1, 0, Calls(condition));
      SkipRuns(image, l, condition, |guarded|, m1, pc + |guard|, outcome.word.n);
      var n3: nat;
      var target: int;
      if outcome.word.n != 0 {
        target := pc + |guard| + 1;
        n3 := ReturnCorrect(image, layouts, f, fuel, value, at + |guard| + 1, e, false, env, m0, m1, ret);
      } else {
        target := pc + |guard| + 1 + |guarded|;
        n3 := BodyCorrect(image, layouts, f, fuel, i + 1, at + |guard + (skip + guarded)|, env, m0, m1, ret);
      }
      var rest := RunFrom(image.program, fuel, body, i, env, m.out);
      FinishesLater(image, rest, fuel, m1, pc + |guard|, m1, target, m0, ret, 1, n3);
      FinishesLater(image, rest, fuel, m, pc, m1, pc + |guard|, m0, ret, n1, 1 + n3);
      n := n1 + (1 + n3);
    } else {
      n := n1;
    }
  }

  lemma ActiveReady(image: Image, l: Layout, env: Env, m0: Machine, m: Machine)
    requires Active(image, l, env, m0, m)
    ensures Ready(image, l, env, m) && InBody(image.target, l, m0, m)
  {}

  lemma {:induction false} PrintStatement(image: Image, layouts: seq<Layout>, f: nat, fuel: nat, i: nat, at: nat,
      env: Env, m0: Machine, m: Machine, ret: int) returns (n: nat)
    requires Compiled(image, layouts) && f < |layouts| && Active(image, layouts[f], env, m0, m)
    requires ReturnAddress(image.target, m0) == Return(ret)
    requires f < |image.program.functions| && f < |image.entry|
    requires i < |image.program.functions[f].body| && image.program.functions[f].body[i].PrintStmt?
    requires NoReturnBefore(image.program.functions[f].body, i) && BodySite(image, layouts[f], f, i, at)
    ensures Finishes(image, RunFrom(image.program, fuel, image.program.functions[f].body, i, env, m.out), fuel, m,
                     BodyStart(image, layouts[f], f) + at, m0, ret, n)
    decreases fuel, 2, |image.program.functions[f].body| - i, 0
  {
    hide Same, EvalWrites, Run, Compiled, BodyStart, InBody, Bindings, Sound, EvalOperand, CodeAt, ReturnAddress, Active, Ready,
         Lowerable, BodySite, Eval, ExprCode, Move;
    var t, l := image.target, layouts[f];
    var body := image.program.functions[f].body;
    var pc := BodyStart(image, l, f) + at;
    var value := body[i].value;
    var first := ExprCode(t, l, value, 0);
    var last := Move(t, Reg(ArgumentRegister(t, 0)), EvalOperand(l, 0)) + [CallPrint];
    BodySiteNext(image, l, f, i, at);
    StmtLowerable(image, layouts, f, i);
    CodeAtSplit(image.code, pc, first, last);
    ActiveReady(image, l, env, m0, m);
    var n1 := ExprCorrect(image, layouts, l, fuel, value, 0, env, m, pc);
    var outcome := Eval(image.program, fuel, value, env, m.out);
    if outcome.Value? {
      var m1 := Run(image, Running(pc, m), n1).m;
      LowerableBindings(image, l, value, 0);
      ActiveKept(image, l, env, m0, m, m1, 0, Calls(value));
      var n2, m2 := PrintRuns(image, l, env, m0, m1, pc + |first|);
      var n3 := BodyCorrect(image, layouts, f, fuel, i + 1, at + |first + last|, env, m0, m2, ret);
      var rest := RunFrom(image.program, fuel, body, i, env, m.out);
      FinishesLater(image, rest, fuel, m1, pc + |first|, m2, pc + |first + last|, m0, ret, n2, n3);
      FinishesLater(image, rest, fuel, m, pc, m1, pc + |first|, m0, ret, n1, n2 + n3);
      n := n1 + (n2 + n3);
    } else {
      n := n1;
    }
  }

  /** `print` writes the value of depth 0 and keeps the activation. */
  lemma PrintRuns(image: Image, l: Layout, env: Env, m0: Machine, m: Machine, pc: int) returns (n: nat, m': Machine)
    requires Active(image, l, env, m0, m) && 0 < l.evalDepth && BindingsSafe(l)
    requires CodeAt(image.code, pc, Move(image.target, Reg(ArgumentRegister(image.target, 0)), EvalOperand(l, 0)) + [CallPrint])
    ensures Run(image, Running(pc, m), n) ==
      Running(pc + |Move(image.target, Reg(ArgumentRegister(image.target, 0)), EvalOperand(l, 0)) + [CallPrint]|, m')
    ensures m'.out == m.out + [Print(Read(image.target, m, EvalOperand(l, 0)))]
    ensures Active(image, l, env, m0, m')
  {
    hide Same, EvalWrites, Run, RunBlock, InBody, Bindings, Sound, EvalOperand, CodeAt, Active, Ready, Move, ArgumentRegister;
    var t := image.target;
    var into := Reg(ArgumentRegister(t, 0));
    var code := Move(t, into, EvalOperand(l, 0));
    CodeAtSplit(image.code, pc, code, [CallPrint]);
    MoveLeaf(t, into, EvalOperand(l, 0), m);
    var m1 := RunBlock(t, code, 0, m).m;
    var n1 := BlockRuns(image, code, 0, m, pc);
    ActiveReady(image, l, env, m0, m);
    ArgumentMoved(image, l, m, m1);
    m' := PrintStep(image, l, pc + |code|, m1);
    RunPlus(image, Running(pc, m), n1, 1);
    SameTrans(t, m, m1, m', EvalWrites(l, 0, true));
    ActiveKept(image, l, env, m0, m, m', 0, true);
    n := n1 + 1;
  }

  lemma ArgumentMoved(image: Image, l: Layout, m: Machine, m1: Machine)
    requires LayoutOk(image, l) && Only(image.target, m, m1, Reg(ArgumentRegister(image.target, 0)))
    ensures Same(image.target, m, m1, EvalWrites(l, 0, true))
  {
    var t := image.target;
    var into := Reg(ArgumentRegister(t, 0));
    ArgumentRegisters(t);
    OnlyIsSame(t, m, m1, into);
    SameWider(t, m, m1, Just(l.file, into), EvalWrites(l, 0, true));
  }

  lemma PrintStep(image: Image, l: Layout, pc: int, m: Machine) returns (m': Machine)
    requires CodeAt(image.code, pc, [CallPrint]) && l.file == FileOf(image.target)
    ensures Run(image, Running(pc, m), 1) == Running(pc + 1, m')
    ensures m'.out == m.out + [Print(Get(m.regs, ArgumentRegister(image.target, 0)))]
    ensures Same(image.target, m, m', EvalWrites(l, 0, true))
  {
    ClobberKeeps(image, m);
    m' := Clobber(image, m).(out := m.out + [Print(Get(m.regs, ArgumentRegister(image.target, 0)))]);
    KeepsIsSame(image, l, 0, m, m');
    TransferStep(image, CallPrint, pc, m, m', pc + 1);
  }

  lemma {:induction false} LetStatement(image: Image, layouts: seq<Layout>, f: nat, fuel: nat, i: nat, at: nat,
      env: Env, m0: Machine, m: Machine, ret: int) returns (n: nat)
    requires Compiled(image, layouts) && f < |layouts| && Active(image, layouts[f], env, m0, m)
    requires ReturnAddress(image.target, m0) == Return(ret)
    requires f < |image.program.functions| && f < |image.entry|
    requires i < |image.program.functions[f].body| && image.program.functions[f].body[i].Let?
    requires NoReturnBefore(image.program.functions[f].body, i) && BodySite(image, layouts[f], f, i, at)
    ensures Finishes(image, RunFrom(image.program, fuel, image.program.functions[f].body, i, env, m.out), fuel, m,
                     BodyStart(image, layouts[f], f) + at, m0, ret, n)
    decreases fuel, 2, |image.program.functions[f].body| - i, 0
  {
    hide Same, EvalWrites, Run, Compiled, BodyStart, InBody, Bindings, Sound, EvalOperand, CodeAt, ReturnAddress, Active, Ready,
         Lowerable, BodySite, Eval, ExprCode, Move, ValueOperand;
    var t, l := image.target, layouts[f];
    var body := image.program.functions[f].body;
    var pc := BodyStart(image, l, f) + at;
    var slot, value := body[i].slot, body[i].value;
    var first := ExprCode(t, l, value, 0);
    var last := Move(t, ValueOperand(l, slot), EvalOperand(l, 0));
    BodySiteNext(image, l, f, i, at);
    StmtLowerable(image, layouts, f, i);
    CodeAtSplit(image.code, pc, first, last);
    ActiveReady(image, l, env, m0, m);
    var n1 := ExprCorrect(image, layouts, l, fuel, value, 0, env, m, pc);
    var outcome := Eval(image.program, fuel, value, env, m.out);
    if outcome.Value? {
      var m1 := Run(image, Running(pc, m), n1).m;
      LowerableBindings(image, l, value, 0);
      ActiveKept(image, l, env, m0, m, m1, 0, Calls(value));
      var n2, m2 := LetRuns(image, l, env, slot, m0, m1, pc + |first|);
      var n3 := BodyCorrect(image, layouts, f, fuel, i + 1, at + |first + last|, env[slot := outcome.word], m0, m2, ret);
      var rest := RunFrom(image.program, fuel, body, i, env, m.out);
      FinishesLater(image, rest, fuel, m1, pc + |first|, m2, pc + |first + last|, m0, ret, n2, n3);
      FinishesLater(image, rest, fuel, m, pc, m1, pc + |first|, m0, ret, n1, n2 + n3);
      n := n1 + (n2 + n3);
    } else {
      n := n1;
    }
  }

  /** A local receives the value of depth 0; every other binding keeps its own. */
  lemma LetRuns(image: Image, l: Layout, env: Env, slot: nat, m0: Machine, m: Machine, pc: int) returns (n: nat, m': Machine)
    requires Active(image, l, env, m0, m) && 0 < l.evalDepth && slot < l.frameSlots
    requires CodeAt(image.code, pc, Move(image.target, ValueOperand(l, slot), EvalOperand(l, 0)))
    ensures Run(image, Running(pc, m), n) == Running(pc + |Move(image.target, ValueOperand(l, slot), EvalOperand(l, 0))|, m')
    ensures m'.out == m.out
    ensures Active(image, l, env[slot := Read(image.target, m, EvalOperand(l, 0))], m0, m')
  {
    hide Same, EvalWrites, Run, RunBlock, InBody, Bindings, Sound, EvalOperand, CodeAt, Active, Ready, Move, ValueOperand;
    var t := image.target;
    var code := Move(t, ValueOperand(l, slot), EvalOperand(l, 0));
    MoveLeaf(t, ValueOperand(l, slot), EvalOperand(l, 0), m);
    m' := RunBlock(t, code, 0, m).m;
    n := BlockRuns(image, code, 0, m, pc);
    LetKeeps(image, l, env, slot, m0, m, m');
  }

  lemma LetKeeps(image: Image, l: Layout, env: Env, slot: nat, m0: Machine, m: Machine, m': Machine)
    requires Active(image, l, env, m0, m) && slot < l.frameSlots
    requires Only(image.target, m, m', ValueOperand(l, slot))
    ensures Active(image, l, env[slot := Read(image.target, m', ValueOperand(l, slot))], m0, m')
  {
    hide InBody, Same, Only, EvalWrites, ValueOperand;
    var t := image.target;
    var into := ValueOperand(l, slot);
    OnlyIsSame(t, m, m', into);
    LetWithinBody(l, slot, t);
    SameWider(t, m, m', Just(l.file, into), BodyWrites(l));
    InBodyKept(t, l, m0, m, m');
    InBodyInFrame(t, l, m0, m');
    var env' := env[slot := Read(t, m', into)];
    forall s: nat | s in env'
      ensures s < l.frameSlots && Read(t, m', ValueOperand(l, s)) == env'[s]
    {
      if s != slot {
        ValueInFrame(t, l, m, s);
        OtherValue(l, s, slot, t);
        SameRead(t, m, m', Just(l.file, into), ValueOperand(l, s));
      }
    }
  }

  lemma LetWithinBody(l: Layout, slot: nat, t: Target)
    requires slot < l.frameSlots
    ensures Just(l.file, ValueOperand(l, slot)) <= BodyWrites(l)
  {
    ValueWithinBody(l, slot);
  }

  lemma OtherValue(l: Layout, s: nat, slot: nat, t: Target)
    requires Sound(l) && s < l.frameSlots && slot < l.frameSlots && s != slot
    ensures ValueOperand(l, s) !in Just(l.file, ValueOperand(l, slot))
  {
    assert ValueLocated(l, s, ValueOperand(l, s));
    if s < slot {
      assert ValueOperand(l, s) != ValueOperand(l, slot);
    } else {
      assert ValueOperand(l, slot) != ValueOperand(l, s);
    }
  }

  lemma {:induction false} EvaluateStatement(image: Image, layouts: seq<Layout>, f: nat, fuel: nat, i: nat, at: nat,
      env: Env, m0: Machine, m: Machine, ret: int) returns (n: nat)
    requires Compiled(image, layouts) && f < |layouts| && Active(image, layouts[f], env, m0, m)
    requires ReturnAddress(image.target, m0) == Return(ret)
    requires f < |image.program.functions| && f < |image.entry|
    requires i < |image.program.functions[f].body| && image.program.functions[f].body[i].Evaluate?
    requires NoReturnBefore(image.program.functions[f].body, i) && BodySite(image, layouts[f], f, i, at)
    ensures Finishes(image, RunFrom(image.program, fuel, image.program.functions[f].body, i, env, m.out), fuel, m,
                     BodyStart(image, layouts[f], f) + at, m0, ret, n)
    decreases fuel, 2, |image.program.functions[f].body| - i, 0
  {
    hide Same, EvalWrites, Run, Compiled, BodyStart, InBody, Bindings, Sound, EvalOperand, CodeAt, ReturnAddress, Active, Ready,
         Lowerable, BodySite, Eval, ExprCode;
    var t, l := image.target, layouts[f];
    var body := image.program.functions[f].body;
    var pc := BodyStart(image, l, f) + at;
    var value := body[i].value;
    var first := ExprCode(t, l, value, 0);
    BodySiteNext(image, l, f, i, at);
    StmtLowerable(image, layouts, f, i);
    ActiveReady(image, l, env, m0, m);
    var n1 := ExprCorrect(image, layouts, l, fuel, value, 0, env, m, pc);
    var outcome := Eval(image.program, fuel, value, env, m.out);
    if outcome.Value? {
      var m1 := Run(image, Running(pc, m), n1).m;
      LowerableBindings(image, l, value, 0);
      ActiveKept(image, l, env, m0, m, m1, 0, Calls(value));
      var n2 := BodyCorrect(image, layouts, f, fuel, i + 1, at + |first|, env, m0, m1, ret);
      var rest := RunFrom(image.program, fuel, body, i, env, m.out);
      FinishesLater(image, rest, fuel, m, pc, m1, pc + |first|, m0, ret, n1, n2);
      n := n1 + n2;
    } else {
      n := n1;
    }
  }

  // ----- functions -----

  /**
   Entering a declared function with its arguments in the argument registers
   yields the source result in register 0, or the source's trap, with the
   source's trace; the frame pointer, the stack pointer, the call-safe
   registers and the caller's memory are restored on every way out.
   */
  lemma {:induction false} FunctionCorrect(image: Image, layouts: seq<Layout>, fuel: nat, f: nat,
      arguments: seq<Word>, m0: Machine, ret: int) returns (n: nat)
    requires Compiled(image, layouts) && f < |layouts| && f < |image.program.functions| && f < |image.entry|
    requires |arguments| == image.program.functions[f].parameters && ReturnAddress(image.target, m0) == Return(ret)
    requires forall s :: 0 <= s < |arguments| ==> Get(m0.regs, ArgumentRegister(image.target, s)) == arguments[s]
    ensures Finishes(image, RunFunction(image.program, fuel, f, arguments, m0.out), fuel, m0, image.entry[f], m0, ret, n)
    decreases fuel, 3
  {
    hide Run, Bindings, Sound, RunBlock, PrologueCode, ReturnAddress, ArgumentRegister, CodeAt, BodySite, RunFrom, Finishes, InBody, Compiled;
    var t, l := image.target, layouts[f];
    BodySiteStart(image, layouts, f);
    FunctionFacts(image, layouts, f);
    PrologueRuns(t, l, arguments, m0);
    var code := PrologueCode(t, l, |arguments|);
    var m := RunBlock(t, code, 0, m0).m;
    var n1 := BlockRuns(image, code, 0, m0, image.entry[f]);
    InBodyInFrame(t, l, m0, m);
    var n2 := BodyCorrect(image, layouts, f, fuel, 0, 0, Bind(arguments), m0, m, ret);
    FinishesLater(image, RunFunction(image.program, fuel, f, arguments, m0.out), fuel, m0, image.entry[f],
                  m, BodyStart(image, l, f), m0, ret, n1, n2);
    n := n1 + n2;
  }

  lemma FunctionFacts(image: Image, layouts: seq<Layout>, f: nat)
    requires Compiled(image, layouts) && f < |layouts|
    ensures var function_, l := image.program.functions[f], layouts[f];
      LayoutOk(image, l) && l.frameSlots == function_.FrameSlots() && function_.parameters <= 6
  {
    assert CompiledFunction(image, layouts[f], f);
    assert WellFormedFunction(image.program.functions, image.program.functions[f]);
  }
}
