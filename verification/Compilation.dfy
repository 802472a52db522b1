/** Compiling a whole program: layouts, emission and entry addresses, up to the theorems about the image. */
module Compilation {
  import opened Words
  import opened Core
  import opened Targets
  import opened Machine
  import opened Lowering
  import opened Preservation
  import opened WholeProgram
  import opened Wrappers
  import Allocation
  import Emission

  /** No function of the program reaches a system call. */
  predicate SyscallFreeProgram(p: Program) {
    forall f :: 0 <= f < |p.functions| ==> SyscallFreeBody(p.functions[f].body)
  }

  /** The gate Compile tests first. */
  method UsesSyscall(p: Program) returns (uses: bool)
    ensures uses <==> !SyscallFreeProgram(p)
  {
    hide SyscallFreeStmt;
    var index := 0;
    while index < |p.functions|
      invariant 0 <= index <= |p.functions|
      invariant forall f :: 0 <= f < index ==> SyscallFreeBody(p.functions[f].body)
    {
      var body := p.functions[index].body;
      var statement := 0;
      while statement < |body|
        invariant 0 <= statement <= |body| && forall i :: 0 <= i < statement ==> SyscallFreeStmt(body[i])
      {
        if !SyscallFreeStmt(body[statement]) { return true; }
        statement := statement + 1;
      }
      index := index + 1;
    }
    uses := false;
  }

  lemma CompleteStatements(functions: seq<Function>, f: Function)
    requires WellFormedFunction(functions, f)
    ensures forall i :: 0 <= i < |f.body| ==> Emission.CompleteStmt(f.body[i])
  {
    hide Emission.Complete, WellFormedExpr;
    forall i | 0 <= i < |f.body| ensures Emission.CompleteStmt(f.body[i]) {
      Emission.WellFormedIsComplete(functions, f.FrameSlots(), f.body[i].value);
      if f.body[i].IfReturn? { Emission.WellFormedIsComplete(functions, f.FrameSlots(), f.body[i].condition); }
    }
  }

  /** One more layout adds one more function's code at the end. */
  lemma {:induction false} OneMoreFunction(t: Target, layouts: seq<Layout>, l: Layout, functions: seq<Function>, i: nat)
    requires i <= |layouts| < |functions|
    ensures FunctionsCode(t, layouts + [l], functions, i)
         == FunctionsCode(t, layouts, functions, i) + FunctionCode(t, l, |layouts|, functions[|layouts|])
    decreases |layouts| - i
  {
    hide FunctionCode;
    if i < |layouts| {
      OneMoreFunction(t, layouts, l, functions, i + 1);
    }
  }

  lemma {:induction false} EntryKept(t: Target, layouts: seq<Layout>, l: Layout, functions: seq<Function>, i: nat, base: nat)
    requires i <= |layouts| < |functions|
    ensures EntryOf(t, layouts + [l], functions, i, base) == EntryOf(t, layouts, functions, i, base)
  {
    hide FunctionCode;
    if i > 0 { EntryKept(t, layouts, l, functions, i - 1, base); }
  }

  lemma {:induction false} EntryIsLength(t: Target, layouts: seq<Layout>, functions: seq<Function>, base: nat)
    requires |layouts| <= |functions|
    ensures EntryOf(t, layouts, functions, |layouts|, base) == base + |FunctionsCode(t, layouts, functions, 0)|
    decreases |layouts|
  {
    hide FunctionCode;
    if |layouts| > 0 {
      var front, last := layouts[..|layouts| - 1], layouts[|layouts| - 1];
      assert layouts == front + [last];
      EntryIsLength(t, front, functions, base);
      OneMoreFunction(t, front, last, functions, 0);
      EntryKept(t, front, last, functions, |front|, base);
    }
  }

  /** The stub and the first functions have been emitted, each entry where its function starts. */
  ghost predicate Emitted(t: Target, p: Program, layouts: seq<Layout>, entry: seq<nat>, code: seq<Instr>) {
    && |layouts| == |entry| <= |p.functions|
    && code == EntryStub(p.main) + FunctionsCode(t, layouts, p.functions, 0)
    && (forall k :: 0 <= k < |layouts| ==> LayoutFor(t, p.functions[k], layouts[k]))
    && (forall k :: 0 <= k < |layouts| ==> entry[k] == EntryOf(t, layouts, p.functions, k, 2))
  }

  lemma NextEmitted(
      t: Target, p: Program, layouts: seq<Layout>, entry: seq<nat>, code: seq<Instr>, l: Layout, code': seq<Instr>)
    requires Emitted(t, p, layouts, entry, code) && |layouts| < |p.functions|
    requires LayoutFor(t, p.functions[|layouts|], l)
    requires code' == code + FunctionCode(t, l, |layouts|, p.functions[|layouts|])
    ensures Emitted(t, p, layouts + [l], entry + [|code|], code')
  {
    hide FunctionCode, FunctionsCode, LayoutFor, EntryOf;
    OneMoreFunction(t, layouts, l, p.functions, 0);
    EntryIsLength(t, layouts, p.functions, 2);
    forall k | 0 <= k <= |layouts|
      ensures EntryOf(t, layouts + [l], p.functions, k, 2) == EntryOf(t, layouts, p.functions, k, 2)
    {
      EntryKept(t, layouts, l, p.functions, k, 2);
    }
  }

  /**
   Compiles a program: the entry stub, then every function at the address its
   calls are linked to, each with the layout the allocator gave it. It is refused
   when the target has no system calls and the program makes one; that an
   expression exceeds its analysed depth never happens.
   */
  method Compile(t: Target, p: Program, junk: Junk) returns (result: Option<Image>, layouts: seq<Layout>)
    requires WellFormed(p)
    ensures result.None? <==> t.A64? && !SyscallFreeProgram(p)
    ensures result.Some? ==> Buildable(t, p, layouts) && result.value == ProgramImage(t, p, layouts, junk)
  {
    hide FunctionCode, LayoutFor, WellFormedFunction, SyscallFreeBody, EntryOf;
    layouts := [];
    if t.A64? {
      var uses := UsesSyscall(p);
      if uses { return None, layouts; }
    }
    var emitter := new Emission.Emitter(t);
    emitter.Put(EntryStub(p.main));
    var entry: seq<nat> := [];
    assert Emitted(t, p, layouts, entry, emitter.code);
    while |layouts| < |p.functions|
      invariant emitter.target == t && Emitted(t, p, layouts, entry, emitter.code) && !emitter.refused
      decreases |p.functions| - |layouts|
    {
      layouts, entry := CompileNext(t, p, emitter, layouts, entry);
    }
    var image := Image(t, p, emitter.code, entry, junk);
    assert image.entry == ProgramImage(t, p, layouts, junk).entry;
    result := if emitter.refused then None else Some(image);
  }

  /** The layout has a place for every depth the emission asks for. */
  lemma NothingRefused(t: Target, f: Function, l: Layout)
    requires LayoutFor(t, f, l)
    ensures Emission.BodyAsks(f.body, 0) <= l.evalDepth
  {
    Emission.AskedIsCounted(f.body, 0);
  }

  method CompileNext(t: Target, p: Program, emitter: Emission.Emitter, layouts: seq<Layout>, entry: seq<nat>)
    returns (layouts': seq<Layout>, entry': seq<nat>)
    requires WellFormed(p) && emitter.target == t
    requires Emitted(t, p, layouts, entry, emitter.code) && |layouts| < |p.functions|
    modifies emitter
    ensures Emitted(t, p, layouts', entry', emitter.code) && |layouts'| == |layouts| + 1
    ensures emitter.refused == old(emitter.refused)
  {
    hide FunctionCode, LayoutFor, WellFormedFunction, Emitted, FunctionsCode;
    ghost var before := emitter.code;
    var f := p.functions[|layouts|];
    var l := Allocation.LayoutForTarget(t, f, p.functions);
    CompleteStatements(p.functions, f);
    entry' := entry + [|emitter.code|];
    NothingRefused(t, f, l);
    emitter.Declaration(l, |layouts|, f);
    NextEmitted(t, p, layouts, entry, before, l, emitter.code);
    layouts' := layouts + [l];
  }
}
