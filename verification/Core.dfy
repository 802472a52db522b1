/**
 The function profile of the native compiler: its typed expression and
 statement trees, and what they mean.
 */
module Core {
  import opened Words
  import opened Division

  datatype BinaryOp =
    | Add | Subtract | Multiply | FloorDivide | FloorModulo
    | Equal | NotEqual | Less | LessEqual | Greater | GreaterEqual

  predicate IsComparison(op: BinaryOp) {
    op.Equal? || op.NotEqual? || op.Less? || op.LessEqual? || op.Greater? || op.GreaterEqual?
  }

  /**
   A call keeps its arguments in declaration order; `order` lists their slots
   as the source text writes them.
   */
  datatype Expr =
    | Literal(value: Int64)
    | TextLiteral(text: string)
    | Parameter(slot: nat)
    | Call(function_: nat, arguments: seq<Expr>, order: seq<nat>)
    | Syscall(arguments: seq<Expr>)
    | Negate(left: Expr)
    | Concat(left: Expr, right: Expr)
    | Binary(op: BinaryOp, left: Expr, right: Expr)

  datatype Stmt =
    | IfReturn(condition: Expr, value: Expr)
    | ReturnStmt(value: Expr)
    | PrintStmt(value: Expr)
    | Let(slot: nat, value: Expr)
    | Evaluate(value: Expr)

  datatype Function = Function(parameters: nat, locals: nat, body: seq<Stmt>) {
    function FrameSlots(): nat { parameters + locals }
  }

  /** What the kernel answers to a system call, given everything observed before it. */
  type Kernel = (seq<Event>, seq<Word>) -> Int64

  datatype Program = Program(functions: seq<Function>, main: nat, kernel: Kernel)

  const MAX_PARAMETERS: nat := 6
  const MAX_FRAME_SLOTS: nat := 32
  const MAX_SYSCALL_ARGUMENTS: nat := 7

  // ----- well-formed trees -----

  predicate IsPermutation(order: seq<nat>) {
    && (forall w :: 0 <= w < |order| ==> order[w] < |order|)
    && (forall v, w :: 0 <= v < w < |order| ==> order[v] != order[w])
  }

  predicate WellFormedExpr(functions: seq<Function>, frameSlots: nat, e: Expr) {
    match e
    case Literal(_) => true
    case TextLiteral(_) => true
    case Parameter(slot) => slot < frameSlots
    case Call(f, arguments, order) =>
      && f < |functions|
      && |order| == |arguments| == functions[f].parameters
      && IsPermutation(order)
      && forall s :: 0 <= s < |arguments| ==> WellFormedExpr(functions, frameSlots, arguments[s])
    case Syscall(arguments) =>
      && 0 < |arguments| <= MAX_SYSCALL_ARGUMENTS
      && forall s :: 0 <= s < |arguments| ==> WellFormedExpr(functions, frameSlots, arguments[s])
    case Negate(left) => WellFormedExpr(functions, frameSlots, left)
    case Concat(left, right) =>
      WellFormedExpr(functions, frameSlots, left) && WellFormedExpr(functions, frameSlots, right)
    case Binary(_, left, right) =>
      WellFormedExpr(functions, frameSlots, left) && WellFormedExpr(functions, frameSlots, right)
  }

  predicate WellFormedStmt(functions: seq<Function>, frameSlots: nat, s: Stmt) {
    && WellFormedExpr(functions, frameSlots, s.value)
    && (s.IfReturn? ==> WellFormedExpr(functions, frameSlots, s.condition))
    && (s.Let? ==> s.slot < frameSlots)
  }

  predicate WellFormedFunction(functions: seq<Function>, f: Function) {
    && f.parameters <= MAX_PARAMETERS
    && f.FrameSlots() <= MAX_FRAME_SLOTS
    && forall i :: 0 <= i < |f.body| ==> WellFormedStmt(functions, f.FrameSlots(), f.body[i])
  }

  predicate WellFormed(p: Program) {
    && p.main < |p.functions|
    && p.functions[p.main].parameters == 0
    && forall f :: 0 <= f < |p.functions| ==> WellFormedFunction(p.functions, p.functions[f])
  }

  // ----- meaning -----

  datatype Arithmetic = Exactly(n: Int64) | Fails(kind: TrapKind)

  function Checked(n: int, kind: TrapKind): Arithmetic {
    if Fits(n) then Exactly(n) else Fails(kind)
  }

  function Truth(b: bool): Arithmetic {
    Exactly(if b then 1 else 0)
  }

  function Apply(op: BinaryOp, a: Int64, b: Int64): Arithmetic {
    match op
    case Add => Checked(a + b, AddOverflow)
    case Subtract => Checked(a - b, SubtractOverflow)
    case Multiply => Checked(a * b, MultiplyOverflow)
    case FloorDivide => if b == 0 then Fails(FloorDivideZero) else Checked(FloorDiv(a, b), FloorDivideOverflow)
    case FloorModulo => if b == 0 then Fails(ModuloZero) else RemainderFits(a, b); Exactly(FloorMod(a, b))
    case Equal => Truth(a == b)
    case NotEqual => Truth(a != b)
    case Less => Truth(a < b)
    case LessEqual => Truth(a <= b)
    case Greater => Truth(a > b)
    case GreaterEqual => Truth(a >= b)
  }

  /**
   The result of running something: a value or a trap, each with everything
   observed so far; Timeout when the call budget ran out; Stuck when a value of
   the wrong kind was used, which no well-typed program reaches.
   */
  datatype Outcome =
    | Value(word: Word, out: seq<Event>)
    | Trap(kind: TrapKind, out: seq<Event>)
    | Timeout
    | Stuck

  datatype Arguments =
    | Values(words: seq<Word>, out: seq<Event>)
    | Aborted(outcome: Outcome)

  type Env = map<nat, Word>

  function Finish(a: Arithmetic, out: seq<Event>): Outcome {
    match a
    case Exactly(n) => Value(Int(n), out)
    case Fails(kind) => Trap(kind, out)
  }

  function FinishBinary(op: BinaryOp, a: Word, b: Word, out: seq<Event>): Outcome {
    if a.Int? && b.Int? then Finish(Apply(op, a.n, b.n), out) else Stuck
  }

  function FinishNegate(a: Word, out: seq<Event>): Outcome {
    if a.Int? then Finish(Checked(0 - a.n, NegateOverflow), out) else Stuck
  }

  function FinishConcat(a: Word, b: Word, out: seq<Event>): Outcome {
    if a.Text? && b.Text? then Value(Text(a.text + b.text), out) else Stuck
  }

  predicate AllInts(words: seq<Word>) {
    forall i :: 0 <= i < |words| ==> words[i].Int?
  }

  function FinishSyscall(p: Program, words: seq<Word>, out: seq<Event>): Outcome {
    if AllInts(words) then Value(Int(p.kernel(out, words)), out + [Event.Syscall(words)]) else Stuck
  }

  /** The position in `order` at which slot s was written. */
  function Position(order: seq<nat>, s: nat): nat {
    if order == [] || order[0] == s then 0 else 1 + Position(order[1..], s)
  }

  /** The values written in `order`, rearranged by declaration slot. */
  function Place(order: seq<nat>, words: seq<Word>): seq<Word> {
    seq(|words|, s requires 0 <= s < |words| =>
      if Position(order, s) < |words| then words[Position(order, s)] else Undefined)
  }

  function Bind(words: seq<Word>): Env {
    map s: nat | s < |words| :: words[s]
  }

  function Eval(p: Program, fuel: nat, e: Expr, env: Env, out: seq<Event>): Outcome
    decreases fuel, 0, e, 1, 0
  {
    match e
    case Literal(value) => Value(Int(value), out)
    case TextLiteral(text) => Value(Text(text), out)
    case Parameter(slot) => if slot in env then Value(env[slot], out) else Stuck
    case Call(f, _, order) =>
      if f >= |p.functions| then Stuck else
      (match EvalWritten(p, fuel, e, 0, env, out)
       case Aborted(outcome) => outcome
       case Values(words, out') =>
         // A call spends one unit of fuel.
         if fuel == 0 then Timeout else RunFunction(p, fuel - 1, f, Place(order, words), out'))
    case Syscall(_) =>
      (match EvalWritten(p, fuel, e, 0, env, out)
       case Aborted(outcome) => outcome
       case Values(words, out') => FinishSyscall(p, words, out'))
    case Negate(left) =>
      (match Eval(p, fuel, left, env, out)
       case Value(a, out') => FinishNegate(a, out')
       case other => other)
    case Concat(left, right) =>
      (match Eval(p, fuel, left, env, out)
       case Value(a, out') =>
         (match Eval(p, fuel, right, env, out')
          case Value(b, out'') => FinishConcat(a, b, out'')
          case other => other)
       case other => other)
    case Binary(op, left, right) =>
      (match Eval(p, fuel, left, env, out)
       case Value(a, out') =>
         (match Eval(p, fuel, right, env, out')
          case Value(b, out'') => FinishBinary(op, a, b, out'')
          case other => other)
       case other => other)
  }

  /** How many arguments e evaluates, and which one is evaluated w-th. */
  function WrittenCount(e: Expr): nat {
    match e
    case Call(_, arguments, order) => |order|
    case Syscall(arguments) => |arguments|
    case _ => 0
  }

  predicate HasWritten(e: Expr, w: nat) {
    match e
    case Call(_, arguments, order) => w < |order| && order[w] < |arguments|
    case Syscall(arguments) => w < |arguments|
    case _ => false
  }

  function Written(e: Expr, w: nat): (a: Expr)
    requires HasWritten(e, w)
    ensures a < e
  {
    match e
    case Call(_, arguments, order) => arguments[order[w]]
    case Syscall(arguments) => arguments[w]
  }

  /** Evaluates the arguments of e in written order, from the w-th on. */
  function EvalWritten(p: Program, fuel: nat, e: Expr, w: nat, env: Env, out: seq<Event>): Arguments
    decreases fuel, 0, e, 0, WrittenCount(e) - w
  {
    if w >= WrittenCount(e) then Values([], out)
    else if !HasWritten(e, w) then Aborted(Stuck)
    else
      match Eval(p, fuel, Written(e, w), env, out)
      case Value(word, out') =>
        (match EvalWritten(p, fuel, e, w + 1, env, out')
         case Values(words, out'') => Values([word] + words, out'')
         case aborted => aborted)
      case other => Aborted(other)
  }

  function RunFunction(p: Program, fuel: nat, f: nat, arguments: seq<Word>, out: seq<Event>): Outcome
    requires f < |p.functions|
    decreases fuel, 2
  {
    RunFrom(p, fuel, p.functions[f].body, 0, Bind(arguments), out)
  }

  /** Runs the statements of a body from the i-th on. Falling off the end answers 0. */
  function RunFrom(p: Program, fuel: nat, body: seq<Stmt>, i: nat, env: Env, out: seq<Event>): Outcome
    decreases fuel, 1, |body| - i
  {
    if i >= |body| then Value(Int(0), out)
    else
      match body[i]
      case IfReturn(condition, value) =>
        (match Eval(p, fuel, condition, env, out)
         case Value(word, out') =>
           if !word.Int? then Stuck
           else if word.n != 0 then Eval(p, fuel, value, env, out')
           else RunFrom(p, fuel, body, i + 1, env, out')
         case other => other)
      case ReturnStmt(value) => Eval(p, fuel, value, env, out)
      case PrintStmt(value) =>
        (match Eval(p, fuel, value, env, out)
         case Value(word, out') => RunFrom(p, fuel, body, i + 1, env, out' + [Print(word)])
         case other => other)
      case Let(slot, value) =>
        (match Eval(p, fuel, value, env, out)
         case Value(word, out') => RunFrom(p, fuel, body, i + 1, env[slot := word], out')
         case other => other)
      case Evaluate(value) =>
        (match Eval(p, fuel, value, env, out)
         case Value(_, out') => RunFrom(p, fuel, body, i + 1, env, out')
         case other => other)
  }
}
