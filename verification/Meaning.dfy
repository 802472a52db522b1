/**
 Calls and system calls over their argument lists alone: the arguments are
 evaluated from left to right as they are written, each stands for itself, and
 the code follows the same lists.
 */
module Meaning {
  import opened Words
  import opened Core
  import opened Permutations
  import opened Targets
  import opened Machine
  import opened Lowering

  /** Evaluates a list of expressions from left to right. */
  function EvalEach(p: Program, fuel: nat, es: seq<Expr>, env: Env, out: seq<Event>): Arguments
    decreases |es|
  {
    if es == [] then Values([], out)
    else
      match Eval(p, fuel, es[0], env, out)
      case Value(word, out') =>
        (match EvalEach(p, fuel, es[1..], env, out')
         case Values(words, out'') => Values([word] + words, out'')
         case aborted => aborted)
      case other => Aborted(other)
  }

  /** es are the arguments of e as the source text writes them. */
  ghost predicate Lists(e: Expr, es: seq<Expr>) {
    match e
    case Call(_, arguments, order) =>
      |es| == |order| && forall w :: 0 <= w < |order| ==> order[w] < |arguments| && es[w] == arguments[order[w]]
    case Syscall(arguments) => es == arguments
    case _ => es == []
  }

  lemma {:induction false} EachIsWritten(p: Program, fuel: nat, e: Expr, es: seq<Expr>, w: nat, env: Env, out: seq<Event>)
    requires Lists(e, es) && w <= |es|
    ensures EvalWritten(p, fuel, e, w, env, out) == EvalEach(p, fuel, es[w..], env, out)
    decreases |es| - w
  {
    hide Eval;
    if w < |es| {
      assert HasWritten(e, w) && Written(e, w) == es[w..][0] && es[w..][1..] == es[w + 1..];
      var first := Eval(p, fuel, Written(e, w), env, out);
      if first.Value? { EachIsWritten(p, fuel, e, es, w + 1, env, first.out); }
    }
  }

  /** Each word is its own expression's value, evaluated where the one before left off. */
  lemma {:induction false} EachInTurn(p: Program, fuel: nat, es: seq<Expr>, env: Env, out: seq<Event>) returns (outs: seq<seq<Event>>)
    requires EvalEach(p, fuel, es, env, out).Values?
    ensures var each := EvalEach(p, fuel, es, env, out);
      && |each.words| == |es| && |outs| == |es| + 1 && outs[0] == out && outs[|es|] == each.out
      && forall i :: 0 <= i < |es| ==> Eval(p, fuel, es[i], env, outs[i]) == Value(each.words[i], outs[i + 1])
    decreases |es|
  {
    hide Eval;
    if es == [] {
      outs := [out];
    } else {
      var first := Eval(p, fuel, es[0], env, out);
      var rest := EachInTurn(p, fuel, es[1..], env, first.out);
      outs := [out] + rest;
    }
  }

  /**
   A system call passes the kernel the values of its arguments, the i-th in the
   i-th place, and records exactly those.
   */
  lemma SyscallMeans(p: Program, fuel: nat, arguments: seq<Expr>, env: Env, out: seq<Event>)
    ensures Eval(p, fuel, Expr.Syscall(arguments), env, out) ==
      match EvalEach(p, fuel, arguments, env, out)
      case Aborted(outcome) => outcome
      case Values(words, out') =>
        if forall i :: 0 <= i < |words| ==> words[i].Int?
        then Value(Int(p.kernel(out', words)), out' + [Event.Syscall(words)]) else Stuck
  {
    EachOfSyscall(p, fuel, arguments, env, out);
    hide EvalWritten, EvalEach;
  }

  lemma EachOfSyscall(p: Program, fuel: nat, arguments: seq<Expr>, env: Env, out: seq<Event>)
    ensures EvalWritten(p, fuel, Expr.Syscall(arguments), 0, env, out) == EvalEach(p, fuel, arguments, env, out)
  {
    assert arguments[0..] == arguments;
    EachIsWritten(p, fuel, Expr.Syscall(arguments), arguments, 0, env, out);
  }

  /** A call evaluates its arguments as they are written and binds each to the slot it was written for. */
  lemma CallMeans(p: Program, fuel: nat, f: nat, arguments: seq<Expr>, order: seq<nat>, es: seq<Expr>, env: Env, out: seq<Event>)
    returns (callee: Env)
    requires f < |p.functions| && IsPermutation(order) && |order| == |arguments| && Lists(Call(f, arguments, order), es)
    ensures match EvalEach(p, fuel, es, env, out)
      case Aborted(outcome) => Eval(p, fuel, Call(f, arguments, order), env, out) == outcome
      case Values(words, out') =>
        && |words| == |order| && (forall s: nat :: s in callee <==> s < |arguments|)
        && (forall w :: 0 <= w < |order| ==> callee[order[w]] == words[w])
        && Eval(p, fuel, Call(f, arguments, order), env, out) ==
           if fuel == 0 then Timeout else RunFrom(p, fuel - 1, p.functions[f].body, 0, callee, out')
  {
    callee := map[];
    assert es[0..] == es;
    EachIsWritten(p, fuel, Call(f, arguments, order), es, 0, env, out);
    var each := EvalEach(p, fuel, es, env, out);
    if each.Values? {
      var outs := EachInTurn(p, fuel, es, env, out);
      callee := Bind(Place(order, each.words));
      forall w | 0 <= w < |order| ensures order[w] in callee && callee[order[w]] == each.words[w] { PlaceAt(order, each.words, w); }
    }
    hide EvalWritten, EvalEach, RunFrom, Place, IsPermutation;
  }

  /** The code of a list of expressions, the first at depth d. */
  function EachCode(t: Target, l: Layout, es: seq<Expr>, d: nat): seq<Instr>
    decreases |es|
  {
    if es == [] then [] else ExprCode(t, l, es[0], d) + EachCode(t, l, es[1..], d + 1)
  }

  lemma {:induction false} EachIsArguments(t: Target, l: Layout, e: Expr, es: seq<Expr>, w: nat, d: nat)
    requires Lists(e, es) && w <= |es|
    ensures ArgumentsCode(t, l, e, w, d) == EachCode(t, l, es[w..], d + w)
    decreases |es| - w
  {
    hide ExprCode;
    if w < |es| {
      assert HasWritten(e, w) && Written(e, w) == es[w..][0] && es[w..][1..] == es[w + 1..];
      EachIsArguments(t, l, e, es, w + 1, d);
    }
  }
}
