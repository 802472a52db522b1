/** The kinds the parser assigns, and why no well-typed program gets stuck. */
module Typing {
  import opened Words
  import opened Core
  import opened Permutations

  datatype Kind = IntKind | BoolKind | TextKind

  /** What the parser records of a declaration besides its body. */
  datatype Signature = Signature(parameters: seq<Kind>, result: Kind, hasResult: bool)

  datatype MaybeKind = Ill | Of(kind: Kind)

  type Kinds = map<nat, Kind>

  function IfKind(ok: bool, kind: Kind): MaybeKind {
    if ok then Of(kind) else Ill
  }

  predicate IsArithmetic(op: BinaryOp) {
    op.Add? || op.Subtract? || op.Multiply? || op.FloorDivide? || op.FloorModulo?
  }

  /** The kind of an expression, given the kinds of the bindings in scope. */
  function KindOf(signatures: seq<Signature>, main: nat, kinds: Kinds, e: Expr): MaybeKind {
    match e
    case Literal(_) => Of(IntKind)
    case TextLiteral(_) => Of(TextKind)
    case Parameter(slot) => if slot in kinds then Of(kinds[slot]) else Ill
    case Call(f, arguments, order) =>
      IfKind(
        && f < |signatures| && f != main && signatures[f].hasResult
        && |order| == |arguments| == |signatures[f].parameters| && IsPermutation(order)
        && (forall s :: 0 <= s < |arguments| ==>
              KindOf(signatures, main, kinds, arguments[s]) == Of(signatures[f].parameters[s])),
        if f < |signatures| then signatures[f].result else IntKind)
    case Syscall(arguments) =>
      IfKind(forall s :: 0 <= s < |arguments| ==> KindOf(signatures, main, kinds, arguments[s]) == Of(IntKind), IntKind)
    case Negate(left) => IfKind(KindOf(signatures, main, kinds, left) == Of(IntKind), IntKind)
    case Concat(left, right) =>
      IfKind(KindOf(signatures, main, kinds, left) == Of(TextKind) && KindOf(signatures, main, kinds, right) == Of(TextKind),
             TextKind)
    case Binary(op, left, right) =>
      IfKind(KindOf(signatures, main, kinds, left) == Of(IntKind) && KindOf(signatures, main, kinds, right) == Of(IntKind),
             if IsArithmetic(op) then IntKind else BoolKind)
  }

  /** The statements from the i-th on are accepted with these bindings in scope. */
  predicate TypedFrom(signatures: seq<Signature>, main: nat, self: Signature, body: seq<Stmt>, i: nat, kinds: Kinds)
    decreases |body| - i
  {
    if i >= |body| then true
    else
      match body[i]
      case IfReturn(condition, value) =>
        && KindOf(signatures, main, kinds, condition) == Of(BoolKind)
        && KindOf(signatures, main, kinds, value) == Of(self.result)
        && TypedFrom(signatures, main, self, body, i + 1, kinds)
      case ReturnStmt(value) =>
        && self.hasResult && KindOf(signatures, main, kinds, value) == Of(self.result)
        && TypedFrom(signatures, main, self, body, i + 1, kinds)
      case PrintStmt(value) =>
        && KindOf(signatures, main, kinds, value) in {Of(IntKind), Of(TextKind)}
        && TypedFrom(signatures, main, self, body, i + 1, kinds)
      case Let(slot, value) =>
        var kind := KindOf(signatures, main, kinds, value);
        && kind in {Of(IntKind), Of(TextKind)}
        && TypedFrom(signatures, main, self, body, i + 1, kinds[slot := kind.kind])
      case Evaluate(value) =>
        && KindOf(signatures, main, kinds, value).Of?
        && TypedFrom(signatures, main, self, body, i + 1, kinds)
  }

  function ParameterKinds(s: Signature): Kinds {
    map i: nat | i < |s.parameters| :: s.parameters[i]
  }

  predicate TypedFunction(p: Program, signatures: seq<Signature>, f: nat)
    requires |signatures| == |p.functions| && f < |p.functions|
  {
    var s, body := signatures[f], p.functions[f].body;
    && |s.parameters| == p.functions[f].parameters
    && TypedFrom(signatures, p.main, s, body, 0, ParameterKinds(s))
    && (s.hasResult ==> body != [] && body[|body| - 1].ReturnStmt?)
    && (!s.hasResult ==> s.result == IntKind)
  }

  ghost predicate WellTyped(p: Program, signatures: seq<Signature>) {
    && |signatures| == |p.functions|
    && p.main < |signatures| && !signatures[p.main].hasResult && signatures[p.main].parameters == []
    && forall f :: 0 <= f < |signatures| ==> TypedFunction(p, signatures, f)
  }

  // ----- the rules, construct by construct -----

  ghost predicate Has(signatures: seq<Signature>, main: nat, kinds: Kinds, e: Expr, kind: Kind) {
    KindOf(signatures, main, kinds, e) == Of(kind)
  }

  /** Operators take numbers, `+` on texts joins them, and a comparison alone gives a truth value. */
  lemma OperatorRules(signatures: seq<Signature>, main: nat, kinds: Kinds, op: BinaryOp, l: Expr, r: Expr, kind: Kind)
    ensures Has(signatures, main, kinds, Negate(l), kind) <==> kind == IntKind && Has(signatures, main, kinds, l, IntKind)
    ensures Has(signatures, main, kinds, Concat(l, r), kind) <==>
      kind == TextKind && Has(signatures, main, kinds, l, TextKind) && Has(signatures, main, kinds, r, TextKind)
    ensures Has(signatures, main, kinds, Binary(op, l, r), kind) <==>
      && Has(signatures, main, kinds, l, IntKind) && Has(signatures, main, kinds, r, IntKind)
      && kind == (if op in {Equal, NotEqual, Less, LessEqual, Greater, GreaterEqual} then BoolKind else IntKind)
  {}

  /** A list of statements without its first is checked as that list alone. */
  lemma {:induction false} TypedBehind(signatures: seq<Signature>, main: nat, self: Signature, s: Stmt, rest: seq<Stmt>, i: nat, kinds: Kinds)
    ensures TypedFrom(signatures, main, self, [s] + rest, i + 1, kinds) == TypedFrom(signatures, main, self, rest, i, kinds)
    decreases |rest| - i
  {
    if i < |rest| {
      assert ([s] + rest)[i + 1] == rest[i];
      TypedBehind(signatures, main, self, s, rest, i + 1, kinds);
      if rest[i].Let? && KindOf(signatures, main, kinds, rest[i].value).Of? {
        TypedBehind(signatures, main, self, s, rest, i + 1, kinds[rest[i].slot := KindOf(signatures, main, kinds, rest[i].value).kind]);
      }
    }
  }

  /** What each first statement asks, the others being checked with the bindings it leaves. */
  lemma StatementRules(signatures: seq<Signature>, main: nat, self: Signature, kinds: Kinds, c: Expr, e: Expr, slot: nat, rest: seq<Stmt>)
    ensures TypedFrom(signatures, main, self, [], 0, kinds)
    ensures TypedFrom(signatures, main, self, [PrintStmt(e)] + rest, 0, kinds) <==>
      && (Has(signatures, main, kinds, e, IntKind) || Has(signatures, main, kinds, e, TextKind))
      && TypedFrom(signatures, main, self, rest, 0, kinds)
    ensures TypedFrom(signatures, main, self, [Let(slot, e)] + rest, 0, kinds) <==>
      || (Has(signatures, main, kinds, e, IntKind) && TypedFrom(signatures, main, self, rest, 0, kinds[slot := IntKind]))
      || (Has(signatures, main, kinds, e, TextKind) && TypedFrom(signatures, main, self, rest, 0, kinds[slot := TextKind]))
    ensures TypedFrom(signatures, main, self, [IfReturn(c, e)] + rest, 0, kinds) <==>
      && Has(signatures, main, kinds, c, BoolKind) && Has(signatures, main, kinds, e, self.result)
      && TypedFrom(signatures, main, self, rest, 0, kinds)
    ensures TypedFrom(signatures, main, self, [ReturnStmt(e)] + rest, 0, kinds) <==>
      && self.hasResult && Has(signatures, main, kinds, e, self.result)
      && TypedFrom(signatures, main, self, rest, 0, kinds)
    ensures TypedFrom(signatures, main, self, [Evaluate(e)] + rest, 0, kinds) <==>
      && (exists kind :: Has(signatures, main, kinds, e, kind))
      && TypedFrom(signatures, main, self, rest, 0, kinds)
  {
    forall s: Stmt, kinds' ensures
      TypedFrom(signatures, main, self, [s] + rest, 1, kinds') == TypedFrom(signatures, main, self, rest, 0, kinds')
    {
      TypedBehind(signatures, main, self, s, rest, 0, kinds');
    }
    hide KindOf;
    if KindOf(signatures, main, kinds, e).Of? {
      assert Has(signatures, main, kinds, e, KindOf(signatures, main, kinds, e).kind);
    }
  }

  // ----- soundness -----

  predicate OfKind(word: Word, kind: Kind) {
    if kind == TextKind then word.Text? else word.Int?
  }

  predicate Sane(outcome: Outcome, kind: Kind) {
    match outcome
    case Value(word, _) => OfKind(word, kind)
    case Trap(_, _) => true
    case Timeout => true
    case Stuck => false
  }

  predicate Matches(env: Env, kinds: Kinds) {
    forall s: nat :: s in kinds ==> s in env && OfKind(env[s], kinds[s])
  }

  function ArgumentKind(signatures: seq<Signature>, e: Expr, w: nat): Kind
    requires HasWritten(e, w) && (e.Call? ==> e.function_ < |signatures| && |e.arguments| == |signatures[e.function_].parameters|)
  {
    match e
    case Call(f, _, order) => signatures[f].parameters[order[w]]
    case _ => IntKind
  }

  predicate CallShaped(signatures: seq<Signature>, e: Expr) {
    e.Call? ==>
      && e.function_ < |signatures| && |e.arguments| == |signatures[e.function_].parameters| == |e.order|
      && IsPermutation(e.order)
  }

  predicate SaneArguments(signatures: seq<Signature>, e: Expr, w: nat, arguments: Arguments) {
    match arguments
    case Aborted(outcome) => !outcome.Stuck? && !outcome.Value?
    case Values(words, _) =>
      CallShaped(signatures, e) && w + |words| == WrittenCount(e) && SaneWords(signatures, e, w, words)
  }

  predicate SaneWords(signatures: seq<Signature>, e: Expr, w: nat, words: seq<Word>)
    requires CallShaped(signatures, e)
  {
    forall j :: 0 <= j < |words| ==> SaneWord(signatures, e, w + j, words[j])
  }

  predicate SaneWord(signatures: seq<Signature>, e: Expr, w: nat, word: Word)
    requires CallShaped(signatures, e)
  {
    HasWritten(e, w) && OfKind(word, ArgumentKind(signatures, e, w))
  }

  /** A well-typed expression evaluates to a word of its kind, traps, or runs out of fuel. */
  lemma {:induction false} EvalSane(p: Program, signatures: seq<Signature>, fuel: nat, e: Expr, kinds: Kinds, env: Env, out: seq<Event>)
    requires WellTyped(p, signatures) && KindOf(signatures, p.main, kinds, e).Of? && Matches(env, kinds)
    ensures Sane(Eval(p, fuel, e, env, out), KindOf(signatures, p.main, kinds, e).kind)
    decreases fuel, 0, e, 1, 0
  {
    hide WellTyped;
    match e
    case Literal(_) =>
    case TextLiteral(_) =>
    case Parameter(_) =>
    case Negate(left) => EvalSane(p, signatures, fuel, left, kinds, env, out);
    case Concat(left, right) =>
      EvalSane(p, signatures, fuel, left, kinds, env, out);
      var a := Eval(p, fuel, left, env, out);
      if a.Value? { EvalSane(p, signatures, fuel, right, kinds, env, a.out); }
    case Binary(_, left, right) =>
      EvalSane(p, signatures, fuel, left, kinds, env, out);
      var a := Eval(p, fuel, left, env, out);
      if a.Value? { EvalSane(p, signatures, fuel, right, kinds, env, a.out); }
    case Syscall(_) => ArgumentsSane(p, signatures, fuel, e, 0, kinds, env, out);
    case Call(_, _, _) => CallSane(p, signatures, fuel, e, kinds, env, out);
  }

  lemma {:induction false} CallSane(p: Program, signatures: seq<Signature>, fuel: nat, e: Expr, kinds: Kinds, env: Env, out: seq<Event>)
    requires e.Call? && WellTyped(p, signatures) && KindOf(signatures, p.main, kinds, e).Of? && Matches(env, kinds)
    ensures Sane(Eval(p, fuel, e, env, out), KindOf(signatures, p.main, kinds, e).kind)
    decreases fuel, 0, e, 0, WrittenCount(e) + 1
  {
    ArgumentsSane(p, signatures, fuel, e, 0, kinds, env, out);
    var arguments := EvalWritten(p, fuel, e, 0, env, out);
    if arguments.Values? && fuel > 0 {
      PlacedKinds(signatures, e, arguments.words);
      FunctionSane(p, signatures, fuel - 1, e.function_, Place(e.order, arguments.words), arguments.out);
    }
  }

  lemma PlacedKinds(signatures: seq<Signature>, e: Expr, words: seq<Word>)
    requires e.Call? && CallShaped(signatures, e) && |words| == |e.order|
    requires forall j :: 0 <= j < |words| ==> HasWritten(e, j) && OfKind(words[j], ArgumentKind(signatures, e, j))
    ensures |Place(e.order, words)| == |signatures[e.function_].parameters|
    ensures forall s :: 0 <= s < |e.order| ==> OfKind(Place(e.order, words)[s], signatures[e.function_].parameters[s])
  {
    forall s | 0 <= s < |e.order|
      ensures OfKind(Place(e.order, words)[s], signatures[e.function_].parameters[s])
    {
      SlotIsWritten(e.order, s);
      var w :| 0 <= w < |e.order| && e.order[w] == s;
      PlaceAt(e.order, words, w);
    }
  }

  lemma {:induction false} ArgumentsSane(p: Program, signatures: seq<Signature>, fuel: nat, e: Expr, w: nat, kinds: Kinds, env: Env,
      out: seq<Event>)
    requires (e.Call? || e.Syscall?) && w <= WrittenCount(e)
    requires WellTyped(p, signatures) && KindOf(signatures, p.main, kinds, e).Of? && Matches(env, kinds)
    ensures SaneArguments(signatures, e, w, EvalWritten(p, fuel, e, w, env, out))
    decreases fuel, 0, e, 0, WrittenCount(e) - w
  {
    if w < WrittenCount(e) {
      assert HasWritten(e, w);
      EvalSane(p, signatures, fuel, Written(e, w), kinds, env, out);
      var a := Eval(p, fuel, Written(e, w), env, out);
      if a.Value? {
        ArgumentsSane(p, signatures, fuel, e, w + 1, kinds, env, a.out);
        var rest := EvalWritten(p, fuel, e, w + 1, env, a.out);
        if rest.Values? { ConsKinds(signatures, e, w, a.word, rest.words, rest.out); }
      }
    }
  }

  lemma FirstSane(signatures: seq<Signature>, e: Expr, w: nat, word: Word)
    requires CallShaped(signatures, e) && HasWritten(e, w) && OfKind(word, ArgumentKind(signatures, e, w))
    ensures SaneWord(signatures, e, w, word)
  {
  }

  lemma ConsKinds(signatures: seq<Signature>, e: Expr, w: nat, word: Word, rest: seq<Word>, out: seq<Event>)
    requires CallShaped(signatures, e) && HasWritten(e, w) && OfKind(word, ArgumentKind(signatures, e, w))
    requires SaneArguments(signatures, e, w + 1, Values(rest, out))
    ensures SaneArguments(signatures, e, w, Values([word] + rest, out))
  {
    var words := [word] + rest;
    hide IsPermutation, SaneWord;
    forall j | 0 <= j < |words| ensures SaneWord(signatures, e, w + j, words[j]) {
      if j > 0 {
        assert words[j] == rest[j - 1];
        assert SaneWord(signatures, e, w + 1 + (j - 1), rest[j - 1]);
      } else {
        FirstSane(signatures, e, w, word);
      }
    }
    assert SaneWords(signatures, e, w, words);
  }

  lemma {:induction false} FunctionSane(p: Program, signatures: seq<Signature>, fuel: nat, f: nat, arguments: seq<Word>, out: seq<Event>)
    requires WellTyped(p, signatures) && f < |signatures| && |arguments| == |signatures[f].parameters|
    requires forall s :: 0 <= s < |arguments| ==> OfKind(arguments[s], signatures[f].parameters[s])
    ensures Sane(RunFunction(p, fuel, f, arguments, out), signatures[f].result)
    decreases fuel, 2
  {
    assert TypedFunction(p, signatures, f);
    BodySane(p, signatures, fuel, f, 0, ParameterKinds(signatures[f]), Bind(arguments), out);
  }

  lemma {:induction false} BodySane(p: Program, signatures: seq<Signature>, fuel: nat, f: nat, i: nat, kinds: Kinds, env: Env,
      out: seq<Event>)
    requires WellTyped(p, signatures) && f < |signatures| && Matches(env, kinds)
    requires TypedFrom(signatures, p.main, signatures[f], p.functions[f].body, i, kinds)
    requires signatures[f].hasResult ==>
      i < |p.functions[f].body| && p.functions[f].body[|p.functions[f].body| - 1].ReturnStmt?
    requires !signatures[f].hasResult ==> signatures[f].result == IntKind
    ensures Sane(RunFrom(p, fuel, p.functions[f].body, i, env, out), signatures[f].result)
    decreases fuel, 1, |p.functions[f].body| - i
  {
    var body := p.functions[f].body;
    hide WellTyped;
    if i < |body| {
      match body[i]
      case IfReturn(condition, value) =>
        EvalSane(p, signatures, fuel, condition, kinds, env, out);
        var a := Eval(p, fuel, condition, env, out);
        if a.Value? {
          EvalSane(p, signatures, fuel, value, kinds, env, a.out);
          if a.word.n == 0 { BodySane(p, signatures, fuel, f, i + 1, kinds, env, a.out); }
        }
      case ReturnStmt(value) => EvalSane(p, signatures, fuel, value, kinds, env, out);
      case PrintStmt(value) =>
        EvalSane(p, signatures, fuel, value, kinds, env, out);
        var a := Eval(p, fuel, value, env, out);
        if a.Value? { BodySane(p, signatures, fuel, f, i + 1, kinds, env, a.out + [Print(a.word)]); }
      case Let(slot, value) =>
        EvalSane(p, signatures, fuel, value, kinds, env, out);
        var a := Eval(p, fuel, value, env, out);
        var kind := KindOf(signatures, p.main, kinds, value).kind;
        if a.Value? { BodySane(p, signatures, fuel, f, i + 1, kinds[slot := kind], env[slot := a.word], a.out); }
      case Evaluate(value) =>
        EvalSane(p, signatures, fuel, value, kinds, env, out);
        var a := Eval(p, fuel, value, env, out);
        if a.Value? { BodySane(p, signatures, fuel, f, i + 1, kinds, env, a.out); }
    }
  }
}
