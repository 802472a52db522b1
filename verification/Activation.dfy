/** Entering and leaving a function: prologue, body, teardown. */
module Activation {
  import opened Words
  import opened Core
  import opened Pressure
  import opened Targets
  import opened Machine
  import opened Lowering
  import opened Blocks
  import opened Leaves
  import opened Frames
  import opened Preservation
  import opened Permutations
  import opened Correctness

  /** How many words the saved frame pointer (and link register) take below the entry stack pointer. */
  function LinkWords(t: Target): nat {
    if t.X64? then 1 else 2
  }

  /** m runs the body of the function that was entered in state m0. */
  ghost predicate InBody(t: Target, l: Layout, m0: Machine, m: Machine) {
    && InFrame(l, m) && m.fp == m0.sp - LinkWords(t)
    && Get(m.mem, m.fp) == Frame(m0.fp)
    && (t.A64? ==> Get(m.mem, m.fp + 1) == Get(m0.regs, LINK))
    && (forall i :: 0 <= i < |l.saved| ==> Read(t, m, SavedOperand(l, i)) == Get(m0.regs, l.saved[i]))
    && (forall r :: r in l.file.callSafe && r !in l.saved ==> Get(m.regs, r) == Get(m0.regs, r))
    && (forall a :: a >= m0.sp ==> Get(m.mem, a) == Get(m0.mem, a))
  }

  ghost predicate BodyWritable(l: Layout, o: Operand) {
    Writable(l, 0, true, o) || (exists s :: 0 <= s < l.frameSlots && o == ValueOperand(l, s))
  }

  /** Everything the statements of a body may write: depths, bindings and caller-saved registers. */
  ghost function BodyWrites(l: Layout): iset<Operand> {
    iset o: Operand | BodyWritable(l, o)
  }

  lemma EvalWithinBody(l: Layout, d: nat, calls: bool)
    ensures EvalWrites(l, d, calls) <= BodyWrites(l)
  {
    WritesWiden(l, 0, true, d, calls);
  }

  lemma ValueWithinBody(l: Layout, s: nat)
    requires s < l.frameSlots
    ensures ValueOperand(l, s) in BodyWrites(l)
  {
    assert BodyWritable(l, ValueOperand(l, s));
  }

  /** A body never writes a saved slot, nor a call-safe register it did not save. */
  lemma BodyWritesBounded(l: Layout, o: Operand)
    requires Sound(l) && o in BodyWrites(l)
    ensures o.Slot? ==> o.slot < l.frameSlots + l.spillSlots
    ensures o.Reg? && o.reg in l.file.callSafe ==> o.reg in l.saved
  {
    if EvalFrom(l, 0, o) {
      var k :| 0 <= k < l.evalDepth && o == EvalOperand(l, k);
      assert EvalLocated(l, o);
    } else if exists s :: 0 <= s < l.frameSlots && o == ValueOperand(l, s) {
      var s :| 0 <= s < l.frameSlots && o == ValueOperand(l, s);
      assert ValueLocated(l, s, o);
    }
  }

  lemma CellOutside(t: Target, l: Layout, m: Machine, a: int)
    requires Sound(l) && InFrame(l, m) && a >= m.fp
    ensures !CellIn(t, m, a, BodyWrites(l))
  {
    if CellIn(t, m, a, BodyWrites(l)) {
      BodyWritesBounded(l, Slot(SlotOf(t, m, a)));
    }
  }

  /** Running statements leaves the activation intact. */
  lemma InBodyKept(t: Target, l: Layout, m0: Machine, m: Machine, m': Machine)
    requires Sound(l) && InBody(t, l, m0, m) && Same(t, m, m', BodyWrites(l))
    ensures InBody(t, l, m0, m')
  {
    CellOutside(t, l, m, m.fp);
    CellOutside(t, l, m, m.fp + 1);
    forall i | 0 <= i < |l.saved|
      ensures Read(t, m', SavedOperand(l, i)) == Get(m0.regs, l.saved[i])
    {
      var o := SavedOperand(l, i);
      if o in BodyWrites(l) { BodyWritesBounded(l, o); }
      SlotsAbove(t, l, m, o.slot);
      SameRead(t, m, m', BodyWrites(l), o);
    }
    forall r | r in l.file.callSafe && r !in l.saved
      ensures Get(m'.regs, r) == Get(m0.regs, r)
    {
      if Reg(r) in BodyWrites(l) { BodyWritesBounded(l, Reg(r)); }
    }
    forall a | a >= m0.sp
      ensures Get(m'.mem, a) == Get(m0.mem, a)
    {
      CellOutside(t, l, m, a);
    }
  }

  // ----- leaving -----

  lemma RestoreOrderly(t: Target, l: Layout, m: Machine)
    requires Sound(l) && l.file == FileOf(t) && InFrame(l, m)
    ensures Orderly(RestoreMoves(l)) && Above(t, m, RestoreMoves(l))
    ensures forall o :: o in Destinations(RestoreMoves(l)) ==> o.Reg? && o.reg in l.saved
  {
    var moves := RestoreMoves(l);
    forall i, j | 0 <= i < j < |moves|
      ensures moves[i].0 != moves[j].0 && moves[i].0 != moves[j].1
    {
      assert l.saved[|moves| - 1 - j] != l.saved[|moves| - 1 - i];
      assert moves[j] == (Reg(l.saved[|moves| - 1 - j]), SavedOperand(l, |moves| - 1 - j));
    }
    forall i | 0 <= i < |moves|
      ensures moves[i].0.Reg? && moves[i].1.Slot? && SlotAddress(t, m, moves[i].1.slot) >= m.sp
    {
      assert moves[i] == (Reg(l.saved[|moves| - 1 - i]), SavedOperand(l, |moves| - 1 - i));
      SlotsAbove(t, l, m, moves[i].1.slot);
    }
  }

  /** The state the teardown leaves: as at entry, but for the registers a caller expects to lose. */
  ghost predicate Unwound(t: Target, m0: Machine, m: Machine) {
    && m.fp == m0.fp && m.sp == m0.sp
    && (forall r :: r in FileOf(t).callSafe ==> Get(m.regs, r) == Get(m0.regs, r))
    && (forall a :: a >= m0.sp ==> Get(m.mem, a) == Get(m0.mem, a))
    && ReturnAddress(t, m) == ReturnAddress(t, m0)
  }

  lemma FileFacts(t: Target)
    ensures LINK !in FileOf(t).callSafe && 0 !in FileOf(t).callSafe && !IsAllocatable(FileOf(t), LINK)
    ensures forall s: nat :: s < 6 ==> ArgumentRegister(t, s) !in FileOf(t).callSafe && ArgumentRegister(t, s) != LINK
  {
    match t
    case X64 =>
    case A64 =>
  }

  /** `leave`, or `mov sp, x29; ldp x29, x30`: the frame is gone. */
  lemma DropRuns(t: Target, l: Layout, m0: Machine, m: Machine)
    requires Get(m.mem, m.fp) == Frame(m0.fp) && m.fp == m0.sp - LinkWords(t)
    requires t.A64? ==> Get(m.mem, m.fp + 1) == Get(m0.regs, LINK)
    ensures RunBlock(t, [DropFrame, PopFrame], 0, m).Falls?
    ensures var m' := RunBlock(t, [DropFrame, PopFrame], 0, m).m;
      && m'.fp == m0.fp && m'.sp == m0.sp && m'.mem == m.mem && m'.out == m.out
      && (forall r: nat :: r != LINK ==> Get(m'.regs, r) == Get(m.regs, r))
      && (t.A64? ==> Get(m'.regs, LINK) == Get(m0.regs, LINK))
  {
    var code := [DropFrame, PopFrame];
    var m1 := m.(sp := m.fp);
    assert ExecLocal(t, DropFrame, m) == On(m1);
    PlainStep(t, code, 0, m, m1);
    var m2 := ExecLocal(t, PopFrame, m1).m;
    PlainStep(t, code, 1, m1, m2);
    assert RunBlock(t, code, 2, m2) == Falls(m2);
  }

  lemma TeardownRuns(t: Target, l: Layout, m0: Machine, m: Machine)
    requires Sound(l) && l.file == FileOf(t) && InBody(t, l, m0, m)
    ensures RunBlock(t, TeardownCode(t, l), 0, m).Falls?
    ensures var m' := RunBlock(t, TeardownCode(t, l), 0, m).m;
      && Unwound(t, m0, m') && m'.out == m.out
      && (forall r: nat :: r !in l.file.callSafe && r != LINK ==> Get(m'.regs, r) == Get(m.regs, r))
  {
    hide Same, Placed, RunBlock, MoveAll, Sound, RestoreMoves, Orderly, Above;
    var moves := RestoreMoves(l);
    RestoreOrderly(t, l, m);
    MovesPlace(t, moves, m);
    var m1 := RunBlock(t, MoveAll(t, moves), 0, m).m;
    Restored(t, l, m0, m, m1);
    FrameCellsKept(t, l, m0, m, m1);
    OthersKept(t, l, m, m1);
    DropRuns(t, l, m0, m1);
    BlockAppend(t, MoveAll(t, moves), [DropFrame, PopFrame], m);
    FileFacts(t);
  }

  lemma OthersKept(t: Target, l: Layout, m: Machine, m1: Machine)
    requires Sound(l) && Same(t, m, m1, Destinations(RestoreMoves(l)))
    requires forall o :: o in Destinations(RestoreMoves(l)) ==> o.Reg? && o.reg in l.saved
    ensures forall r: nat :: r !in l.file.callSafe ==> Get(m1.regs, r) == Get(m.regs, r)
  {
    hide Destinations, RestoreMoves;
  }

  lemma FrameCellsKept(t: Target, l: Layout, m0: Machine, m: Machine, m1: Machine)
    requires InBody(t, l, m0, m) && Same(t, m, m1, Destinations(RestoreMoves(l)))
    requires forall o :: o in Destinations(RestoreMoves(l)) ==> o.Reg?
    ensures Get(m1.mem, m1.fp) == Frame(m0.fp) && m1.fp == m0.sp - LinkWords(t)
    ensures t.A64? ==> Get(m1.mem, m1.fp + 1) == Get(m0.regs, LINK)
    ensures forall a :: a >= m0.sp ==> Get(m1.mem, a) == Get(m0.mem, a)
  {
    forall a | a >= m.sp
      ensures Get(m1.mem, a) == Get(m.mem, a)
    {
      assert !CellIn(t, m, a, Destinations(RestoreMoves(l)));
    }
  }

  lemma Restored(t: Target, l: Layout, m0: Machine, m: Machine, m1: Machine)
    requires Sound(l) && l.file == FileOf(t) && InBody(t, l, m0, m)
    requires Placed(t, m, m1, RestoreMoves(l)) && Same(t, m, m1, Destinations(RestoreMoves(l)))
    requires forall o :: o in Destinations(RestoreMoves(l)) ==> o.Reg? && o.reg in l.saved
    ensures forall r :: r in l.file.callSafe ==> Get(m1.regs, r) == Get(m0.regs, r)
  {
    forall r | r in l.file.callSafe
      ensures Get(m1.regs, r) == Get(m0.regs, r)
    {
      if r in l.saved {
        var i :| 0 <= i < |l.saved| && l.saved[i] == r;
        RestoredOne(t, l, m0, m, m1, i);
      } else {
        assert Reg(r) !in Destinations(RestoreMoves(l));
      }
    }
  }

  lemma RestoredOne(t: Target, l: Layout, m0: Machine, m: Machine, m1: Machine, i: nat)
    requires i < |l.saved| && Placed(t, m, m1, RestoreMoves(l))
    requires Read(t, m, SavedOperand(l, i)) == Get(m0.regs, l.saved[i])
    ensures Get(m1.regs, l.saved[i]) == Get(m0.regs, l.saved[i])
  {
    var moves := RestoreMoves(l);
    var j := |l.saved| - 1 - i;
    assert moves[j] == (Reg(l.saved[i]), SavedOperand(l, i));
    assert Read(t, m1, moves[j].0) == Read(t, m, moves[j].1);
  }

  // ----- entering -----

  /** The frame is open: linked to the caller's, with room for every slot. */
  ghost predicate Opened(t: Target, l: Layout, m0: Machine, m: Machine) {
    && InFrame(l, m) && m.fp == m0.sp - LinkWords(t) && m.out == m0.out && m.regs == m0.regs
    && Get(m.mem, m.fp) == Frame(m0.fp)
    && (t.A64? ==> Get(m.mem, m.fp + 1) == Get(m0.regs, LINK))
    && (forall a :: a >= m0.sp ==> Get(m.mem, a) == Get(m0.mem, a))
  }

  lemma OpenRuns(t: Target, l: Layout, m0: Machine)
    ensures RunBlock(t, FrameOpen(t, l), 0, m0).Falls?
    ensures Opened(t, l, m0, RunBlock(t, FrameOpen(t, l), 0, m0).m)
  {
    hide RunBlock, ExecLocal;
    var code := FrameOpen(t, l);
    var m1 := PushFrameRuns(t, m0);
    PlainStep(t, code, 0, m0, m1);
    var m2 := m1.(fp := m1.sp);
    SetFrameRuns(t, m1);
    PlainStep(t, code, 1, m1, m2);
    if l.TotalSlots() > 0 {
      var m3 := m2.(sp := m2.sp - l.FrameWords());
      ReserveRuns(t, m2, l.FrameWords());
      PlainStep(t, code, 2, m2, m3);
      BlockEndsHere(t, code, m3);
    } else {
      BlockEndsHere(t, code, m2);
    }
  }

  lemma BlockEndsHere(t: Target, code: seq<Instr>, m: Machine)
    ensures RunBlock(t, code, |code|, m) == Falls(m)
  {}

  lemma PushFrameRuns(t: Target, m0: Machine) returns (m1: Machine)
    ensures ExecLocal(t, PushFrame, m0) == On(m1)
    ensures m1.sp == m0.sp - LinkWords(t) && m1.fp == m0.fp && m1.regs == m0.regs && m1.out == m0.out
    ensures Get(m1.mem, m1.sp) == Frame(m0.fp) && (t.A64? ==> Get(m1.mem, m1.sp + 1) == Get(m0.regs, LINK))
    ensures forall a :: a >= m0.sp ==> Get(m1.mem, a) == Get(m0.mem, a)
  {
    m1 := ExecLocal(t, PushFrame, m0).m;
  }

  lemma SetFrameRuns(t: Target, m: Machine)
    ensures ExecLocal(t, SetFrame, m) == On(m.(fp := m.sp))
  {}

  lemma ReserveRuns(t: Target, m: Machine, words: nat)
    ensures ExecLocal(t, ReserveFrame(words), m) == On(m.(sp := m.sp - words))
  {}

  lemma SaveOrderly(t: Target, l: Layout, m: Machine)
    requires Sound(l) && InFrame(l, m)
    ensures Orderly(SaveMoves(l)) && Above(t, m, SaveMoves(l))
    ensures forall o :: o in Destinations(SaveMoves(l)) ==> o.Slot? && l.frameSlots + l.spillSlots <= o.slot < l.TotalSlots()
  {
    var moves := SaveMoves(l);
    forall i | 0 <= i < |moves|
      ensures moves[i].0.Slot? && moves[i].1.Reg? && SlotAddress(t, m, moves[i].0.slot) >= m.sp
    {
      assert moves[i] == (SavedOperand(l, i), Reg(l.saved[i]));
      SlotsAbove(t, l, m, moves[i].0.slot);
    }
  }

  lemma ParametersOrderly(t: Target, l: Layout, parameters: nat, m: Machine)
    requires Sound(l) && l.file == FileOf(t) && InFrame(l, m) && parameters <= l.frameSlots && parameters <= 6
    ensures Orderly(ParameterMoves(t, l, parameters)) && Above(t, m, ParameterMoves(t, l, parameters))
    ensures Destinations(ParameterMoves(t, l, parameters)) <= BodyWrites(l)
  {
    var moves := ParameterMoves(t, l, parameters);
    ArgumentRegisters(t);
    forall i | 0 <= i < |moves|
      ensures moves[i] == (ValueOperand(l, i), Reg(ArgumentRegister(t, i)))
      ensures moves[i].0.Slot? ==> SlotAddress(t, m, moves[i].0.slot) >= m.sp
      ensures moves[i].0 in BodyWrites(l)
      ensures moves[i].0.Reg? ==> IsAllocatable(l.file, moves[i].0.reg)
    {
      ValueInFrame(t, l, m, i);
      ValueWithinBody(l, i);
    }
  }

  /** The saved slots are filled and the rest of the frame is as it was opened. */
  lemma SavesRun(t: Target, l: Layout, m0: Machine, m: Machine)
    requires Sound(l) && Opened(t, l, m0, m)
    ensures RunBlock(t, MoveAll(t, SaveMoves(l)), 0, m).Falls?
    ensures var m' := RunBlock(t, MoveAll(t, SaveMoves(l)), 0, m).m;
      InBody(t, l, m0, m') && m'.out == m0.out && (forall r: nat :: Get(m'.regs, r) == Get(m0.regs, r))
  {
    var moves := SaveMoves(l);
    SaveOrderly(t, l, m);
    MovesPlace(t, moves, m);
    var m' := RunBlock(t, MoveAll(t, moves), 0, m).m;
    forall r: nat
      ensures Get(m'.regs, r) == Get(m0.regs, r)
    {
      assert Reg(r) !in Destinations(moves);
    }
    forall a | a >= m.fp
      ensures Get(m'.mem, a) == Get(m.mem, a)
    {
      assert !CellIn(t, m, a, Destinations(moves));
    }
    forall i | 0 <= i < |l.saved|
      ensures Read(t, m', SavedOperand(l, i)) == Get(m0.regs, l.saved[i])
    {
      assert moves[i] == (SavedOperand(l, i), Reg(l.saved[i]));
      assert Read(t, m', moves[i].0) == Read(t, m, moves[i].1);
    }
  }

  /** The prologue opens the frame, saves what the body claims and stores the parameters. */
  lemma PrologueRuns(t: Target, l: Layout, arguments: seq<Word>, m0: Machine)
    requires Sound(l) && l.file == FileOf(t) && |arguments| <= l.frameSlots && |arguments| <= 6
    requires forall s :: 0 <= s < |arguments| ==> Get(m0.regs, ArgumentRegister(t, s)) == arguments[s]
    ensures RunBlock(t, PrologueCode(t, l, |arguments|), 0, m0).Falls?
    ensures var m := RunBlock(t, PrologueCode(t, l, |arguments|), 0, m0).m;
      InBody(t, l, m0, m) && m.out == m0.out && Bindings(t, l, Bind(arguments), m)
  {
    hide InBody, Bindings, RunBlock, Sound, Opened, FrameOpen, SaveMoves, MoveAll;
    OpenRuns(t, l, m0);
    var m1 := RunBlock(t, FrameOpen(t, l), 0, m0).m;
    SavesRun(t, l, m0, m1);
    var saves := MoveAll(t, SaveMoves(l));
    var m2 := RunBlock(t, saves, 0, m1).m;
    ParametersRun(t, l, arguments, m0, m2);
    var stores := MoveAll(t, ParameterMoves(t, l, |arguments|));
    BlockAppend(t, saves, stores, m1);
    BlockAppend(t, FrameOpen(t, l), saves + stores, m0);
  }

  lemma ParametersRun(t: Target, l: Layout, arguments: seq<Word>, m0: Machine, m: Machine)
    requires Sound(l) && l.file == FileOf(t) && |arguments| <= l.frameSlots && |arguments| <= 6
    requires InBody(t, l, m0, m) && m.out == m0.out
    requires forall s: nat :: s < |arguments| ==> Get(m.regs, ArgumentRegister(t, s)) == arguments[s]
    ensures RunBlock(t, MoveAll(t, ParameterMoves(t, l, |arguments|)), 0, m).Falls?
    ensures var m' := RunBlock(t, MoveAll(t, ParameterMoves(t, l, |arguments|)), 0, m).m;
      InBody(t, l, m0, m') && m'.out == m0.out && Bindings(t, l, Bind(arguments), m')
  {
    var moves := ParameterMoves(t, l, |arguments|);
    ParametersOrderly(t, l, |arguments|, m);
    MovesPlace(t, moves, m);
    var m' := RunBlock(t, MoveAll(t, moves), 0, m).m;
    SameWider(t, m, m', Destinations(moves), BodyWrites(l));
    InBodyKept(t, l, m0, m, m');
    forall s: nat | s in Bind(arguments)
      ensures s < l.frameSlots && Read(t, m', ValueOperand(l, s)) == Bind(arguments)[s]
    {
      assert moves[s] == (ValueOperand(l, s), Reg(ArgumentRegister(t, s)));
      assert Read(t, m', moves[s].0) == Read(t, m, moves[s].1);
    }
  }
}
