/**
 The pressure analysis against the emitted code itself: which depths the
 instructions read and write, and which of them wait across a call.
 */
module DepthUse {
  import opened Words
  import opened Core
  import opened Pressure
  import opened Targets
  import opened Machine
  import opened Lowering
  import opened Typing
  import Correctness

  // ----- what an instruction does to the frame -----

  function ReadOf(o: Operand): seq<DepthEvent> {
    if o.Slot? then [Reads(o.slot)] else []
  }

  function WriteOf(o: Operand): seq<DepthEvent> {
    if o.Slot? then [Writes(o.slot)] else []
  }

  function EventsOf(i: Instr): seq<DepthEvent> {
    match i
    case Mov(into, from) => ReadOf(from) + WriteOf(into)
    case AddFlags(into, left, right) => ReadOf(left) + ReadOf(right) + WriteOf(into)
    case SubFlags(into, left, right) => ReadOf(left) + ReadOf(right) + WriteOf(into)
    case NegFlags(into, from) => ReadOf(from) + WriteOf(into)
    case Imul(_, from) => ReadOf(from)
    case Cmp(left, right) => ReadOf(left) + ReadOf(right)
    case CallFunction(_) => [CallHappens]
    case CallPrint => [CallHappens]
    case CallConcat => [CallHappens]
    case KernelCall(_) => [CallHappens]
    case _ => []
  }

  /** The events of the code in the order it is laid out. */
  function Events(code: seq<Instr>): seq<DepthEvent> {
    if code == [] then [] else EventsOf(code[0]) + Events(code[1..])
  }

  predicate IsFrameWork(i: Instr) {
    i.PushFrame? || i.SetFrame? || i.ReserveFrame? || i.DropFrame? || i.PopFrame?
  }

  predicate InArithmetic(i: Instr) {
    i.AddFlags? || i.SubFlags? || i.NegFlags? || i.Imul? || i.XorFlags? || i.Cmp? || i.CmpMinusOne? || i.Test? || i.SetBool?
    || i.Decrement?
  }

  predicate InDivision(i: Instr) {
    i.Cqo? || i.Idiv? || i.AddPlain? || i.MulLow? || i.MulHigh? || i.SignOf? || i.Sdiv? || i.Msub? || i.Eor?
  }

  lemma LocalParts(t: Target, i: Instr, m: Machine)
    ensures InArithmetic(i) ==> ExecLocal(t, i, m) == ExecArithmetic(t, i, m)
    ensures InDivision(i) ==> ExecLocal(t, i, m) == ExecDivision(t, i, m)
  {
    hide ExecArithmetic, ExecDivision, ExecFrame, Holds, IsInt, IntAt, Read, Write;
  }

  /** An instruction that does not write a slot leaves it alone. */
  lemma UnwrittenSlot(t: Target, i: Instr, m: Machine, k: nat)
    requires !IsFrameWork(i) && Writes(k) !in EventsOf(i) && ExecLocal(t, i, m).Next?
    ensures Get(ExecLocal(t, i, m).m.mem, SlotAddress(t, m, k)) == Get(m.mem, SlotAddress(t, m, k))
  {
    hide ExecArithmetic, ExecDivision, ExecFrame, ExecLocal, EventsOf, SlotAddress, Get, IsFrameWork;
    LocalParts(t, i, m);
    if InArithmetic(i) {
      ArithmeticUnwritten(t, i, m, k);
    } else if InDivision(i) {
      DivisionUnwritten(t, i, m);
    } else {
      OtherUnwritten(t, i, m, k);
    }
  }

  lemma ArithmeticUnwritten(t: Target, i: Instr, m: Machine, k: nat)
    requires Writes(k) !in EventsOf(i) && ExecArithmetic(t, i, m).Next?
    ensures Get(ExecArithmetic(t, i, m).m.mem, SlotAddress(t, m, k)) == Get(m.mem, SlotAddress(t, m, k))
  {
    hide Wrap, Holds, FlagsOf, FlagsOfDifference, XorSign, IsInt, IntAt, SlotAddress;
    match i
    case AddFlags(into, _, _) => OtherSlot(t, m, into, k);
    case SubFlags(into, _, _) => OtherSlot(t, m, into, k);
    case NegFlags(into, _) => OtherSlot(t, m, into, k);
    case _ =>
  }

  lemma DivisionUnwritten(t: Target, i: Instr, m: Machine)
    requires ExecDivision(t, i, m).Next?
    ensures ExecDivision(t, i, m).m.mem == m.mem
  {
    hide Wrap, TruncDiv, TruncMod, XorSign, IsInt, IntAt;
  }

  lemma OtherUnwritten(t: Target, i: Instr, m: Machine, k: nat)
    requires !InArithmetic(i) && !InDivision(i) && !IsFrameWork(i)
    requires Writes(k) !in EventsOf(i) && ExecLocal(t, i, m).Next?
    ensures Get(ExecLocal(t, i, m).m.mem, SlotAddress(t, m, k)) == Get(m.mem, SlotAddress(t, m, k))
  {
    hide ExecArithmetic, ExecDivision, ExecFrame, Holds, IsInt, IntAt, SlotAddress, Read;
    if i.Mov? { OtherSlot(t, m, i.into, k); }
  }

  lemma OtherSlot(t: Target, m: Machine, into: Operand, k: nat)
    requires Writes(k) !in WriteOf(into)
    ensures into.Slot? ==> SlotAddress(t, m, into.slot) != SlotAddress(t, m, k)
  {
    if into.Slot? { assert WriteOf(into)[0] == Writes(into.slot); }
  }

  /** The machine with another word in slot k. */
  function Altered(t: Target, m: Machine, k: nat, w: Word): Machine {
    m.(mem := m.mem[SlotAddress(t, m, k) := w])
  }

  /** The two effects differ at most in the cell at address a. */
  ghost predicate SameBut(a: int, left: Effect, right: Effect) {
    match (left, right)
    case (Next(m, skip), Next(m', skip')) => skip == skip' && AgreesBut(a, m, m')
    case (_, _) => left == right
  }

  ghost predicate AgreesBut(a: int, m: Machine, m': Machine) {
    && m'.regs == m.regs && m'.flags == m.flags && m'.sp == m.sp && m'.fp == m.fp && m'.out == m.out
    && forall b :: b != a ==> Get(m'.mem, b) == Get(m.mem, b)
  }

  /** Nothing but the slot itself depends on a slot the instruction does not read. */
  lemma UnreadSlot(t: Target, i: Instr, m: Machine, k: nat, w: Word)
    requires !IsFrameWork(i) && Reads(k) !in EventsOf(i)
    ensures SameBut(SlotAddress(t, m, k), ExecLocal(t, i, m), ExecLocal(t, i, Altered(t, m, k, w)))
  {
    hide ExecArithmetic, ExecDivision, ExecFrame, ExecLocal, EventsOf, SlotAddress, Altered, SameBut, IsFrameWork;
    LocalParts(t, i, m);
    LocalParts(t, i, Altered(t, m, k, w));
    if InArithmetic(i) {
      ArithmeticUnread(t, i, m, k, w);
    } else if InDivision(i) {
      DivisionUnread(t, i, m, k, w);
    } else {
      OtherUnread(t, i, m, k, w);
    }
  }

  lemma OtherUnread(t: Target, i: Instr, m: Machine, k: nat, w: Word)
    requires !InArithmetic(i) && !InDivision(i) && !IsFrameWork(i) && Reads(k) !in EventsOf(i)
    ensures SameBut(SlotAddress(t, m, k), ExecLocal(t, i, m), ExecLocal(t, i, Altered(t, m, k, w)))
  {
    hide ExecArithmetic, ExecDivision, ExecFrame, Holds, IsInt, IntAt, SlotAddress, Read, Write, Altered;
    AlteredAgrees(t, m, k, w);
    if i.Mov? {
      OtherRead(t, m, i.from, k, w);
      WriteBut(t, m, i.into, Read(t, m, i.from), k, w);
    }
  }

  lemma AlteredAgrees(t: Target, m: Machine, k: nat, w: Word)
    ensures AgreesBut(SlotAddress(t, m, k), m, Altered(t, m, k, w))
    ensures forall r: nat :: IsInt(t, Altered(t, m, k, w), Reg(r)) == IsInt(t, m, Reg(r))
    ensures forall r: nat :: IntAt(t, Altered(t, m, k, w), Reg(r)) == IntAt(t, m, Reg(r))
  {
    hide SlotAddress;
  }

  lemma OtherRead(t: Target, m: Machine, from: Operand, k: nat, w: Word)
    requires Reads(k) !in ReadOf(from)
    ensures var m' := Altered(t, m, k, w);
      Read(t, m', from) == Read(t, m, from) && IsInt(t, m', from) == IsInt(t, m, from) && IntAt(t, m', from) == IntAt(t, m, from)
  {
    if from.Slot? { assert ReadOf(from)[0] == Reads(from.slot); }
  }

  lemma WriteBut(t: Target, m: Machine, o: Operand, n: Word, k: nat, w: Word)
    ensures AgreesBut(SlotAddress(t, m, k), Write(t, m, o, n), Write(t, Altered(t, m, k, w), o, n))
  {}

  /** The instructions that compute with locations, one kind at a time. */
  lemma ArithmeticUnread(t: Target, i: Instr, m: Machine, k: nat, w: Word)
    requires InArithmetic(i) && Reads(k) !in EventsOf(i)
    ensures SameBut(SlotAddress(t, m, k), ExecArithmetic(t, i, m), ExecArithmetic(t, i, Altered(t, m, k, w)))
  {
    hide ExecArithmetic, SlotAddress, Altered, SameBut, ReadOf, WriteOf;
    match i
    case AddFlags(into, left, right) => SumUnread(t, i, m, k, w, into, left, right);
    case SubFlags(into, left, right) => SumUnread(t, i, m, k, w, into, left, right);
    case NegFlags(into, from) => NegUnread(t, m, k, w, into, from);
    case Imul(reg, from) => ImulUnread(t, m, k, w, reg, from);
    case Cmp(left, right) => CmpUnread(t, m, k, w, left, right);
    case _ => RegistersUnread(t, i, m, k, w);
  }

  lemma SumUnread(t: Target, i: Instr, m: Machine, k: nat, w: Word, into: Operand, left: Operand, right: Operand)
    requires i == AddFlags(into, left, right) || i == SubFlags(into, left, right)
    requires Reads(k) !in ReadOf(left) && Reads(k) !in ReadOf(right)
    ensures SameBut(SlotAddress(t, m, k), ExecArithmetic(t, i, m), ExecArithmetic(t, i, Altered(t, m, k, w)))
  {
    hide Wrap, Read, Write, IsInt, IntAt, SlotAddress, Altered;
    OtherRead(t, m, left, k, w);
    OtherRead(t, m, right, k, w);
    var n := if i.AddFlags? then IntAt(t, m, left) + IntAt(t, m, right) else IntAt(t, m, left) - IntAt(t, m, right);
    WriteBut(t, m, into, Int(Wrap(n)), k, w);
  }

  lemma NegUnread(t: Target, m: Machine, k: nat, w: Word, into: Operand, from: Operand)
    requires Reads(k) !in ReadOf(from)
    ensures SameBut(SlotAddress(t, m, k), ExecArithmetic(t, NegFlags(into, from), m), ExecArithmetic(t, NegFlags(into, from), Altered(t, m, k, w)))
  {
    hide Wrap, Read, Write, IsInt, IntAt, SlotAddress, Altered;
    OtherRead(t, m, from, k, w);
    WriteBut(t, m, into, Int(Wrap(0 - IntAt(t, m, from))), k, w);
  }

  lemma ImulUnread(t: Target, m: Machine, k: nat, w: Word, reg: nat, from: Operand)
    requires Reads(k) !in ReadOf(from)
    ensures SameBut(SlotAddress(t, m, k), ExecArithmetic(t, Imul(reg, from), m), ExecArithmetic(t, Imul(reg, from), Altered(t, m, k, w)))
  {
    hide Wrap, Read, Write, IsInt, IntAt, SlotAddress, Altered;
    OtherRead(t, m, from, k, w);
    OtherRead(t, m, Reg(reg), k, w);
    WriteBut(t, m, Reg(reg), Int(Wrap(IntAt(t, m, Reg(reg)) * IntAt(t, m, from))), k, w);
  }

  lemma CmpUnread(t: Target, m: Machine, k: nat, w: Word, left: Operand, right: Operand)
    requires Reads(k) !in ReadOf(left) && Reads(k) !in ReadOf(right)
    ensures SameBut(SlotAddress(t, m, k), ExecArithmetic(t, Cmp(left, right), m), ExecArithmetic(t, Cmp(left, right), Altered(t, m, k, w)))
  {
    hide FlagsOfDifference, Read, Write, IsInt, IntAt, SlotAddress, Altered;
    OtherRead(t, m, left, k, w);
    OtherRead(t, m, right, k, w);
    AlteredAgrees(t, m, k, w);
  }

  lemma RegistersUnread(t: Target, i: Instr, m: Machine, k: nat, w: Word)
    requires i.XorFlags? || i.CmpMinusOne? || i.Test? || i.SetBool? || i.Decrement?
    ensures SameBut(SlotAddress(t, m, k), ExecArithmetic(t, i, m), ExecArithmetic(t, i, Altered(t, m, k, w)))
  {
    hide Wrap, Holds, FlagsOf, FlagsOfDifference, XorSign, IsInt, IntAt, SlotAddress, Altered;
    AlteredAgrees(t, m, k, w);
  }

  lemma DivisionUnread(t: Target, i: Instr, m: Machine, k: nat, w: Word)
    ensures SameBut(SlotAddress(t, m, k), ExecDivision(t, i, m), ExecDivision(t, i, Altered(t, m, k, w)))
  {
    hide Wrap, TruncDiv, TruncMod, XorSign, IsInt, IntAt, SlotAddress, Altered;
    AlteredAgrees(t, m, k, w);
  }

  // ----- sequences of events that use every depth alike -----

  ghost predicate AlikeAt(a: seq<DepthEvent>, b: seq<DepthEvent>, k: nat, after: bool) {
    Live(a, k, after) == Live(b, k, after) && LiveAtCall(a, k, after) == LiveAtCall(b, k, after)
  }

  ghost predicate Alike(a: seq<DepthEvent>, b: seq<DepthEvent>) {
    && (forall k: nat, after: bool :: AlikeAt(a, b, k, after))
    && (forall k: nat :: Touches(a, k) == Touches(b, k))
  }

  lemma AlikeAppend(a: seq<DepthEvent>, a': seq<DepthEvent>, b: seq<DepthEvent>, b': seq<DepthEvent>)
    requires Alike(a, a') && Alike(b, b')
    ensures Alike(a + b, a' + b')
  {
    forall k: nat, after: bool ensures AlikeAt(a + b, a' + b', k, after) {
      LiveAppend(a, b, k, after);
      LiveAppend(a', b', k, after);
      assert AlikeAt(b, b', k, after) && AlikeAt(a, a', k, Live(b, k, after));
    }
    forall k: nat ensures Touches(a + b, k) == Touches(a' + b', k) {
      TouchesAppend(a, b, k);
      TouchesAppend(a', b', k);
    }
  }

  lemma {:induction false} EventsAppend(a: seq<Instr>, b: seq<Instr>)
    ensures Events(a + b) == Events(a) + Events(b)
  {
    hide EventsOf;
    if a == [] {
      assert a + b == b;
    } else {
      EventsAppend(a[1..], b);
      assert (a + b)[0] == a[0] && (a + b)[1..] == a[1..] + b;
      assert Events(a + b) == EventsOf(a[0]) + (Events(a[1..]) + Events(b));
    }
  }

  lemma {:induction false} Quiet(code: seq<Instr>)
    requires forall i :: 0 <= i < |code| ==> EventsOf(code[i]) == []
    ensures Events(code) == []
  {
    if code != [] { Quiet(code[1..]); }
  }

  lemma OneInstr(i: Instr)
    ensures Events([i]) == EventsOf(i)
  {
    assert Events([i][1..]) == [];
  }

  lemma TwoInstrs(i: Instr, j: Instr)
    ensures Events([i, j]) == EventsOf(i) + EventsOf(j)
  {
    OneInstr(j);
    assert [i, j][1..] == [j];
  }

  /** The order in which two operands are read does not matter. */
  lemma ReadsCommute(d: nat, e: nat)
    ensures Alike([Reads(e), Reads(d)], [Reads(d), Reads(e)])
  {
    var a, b := [Reads(e), Reads(d)], [Reads(d), Reads(e)];
    forall k: nat, after: bool ensures AlikeAt(a, b, k, after) {
      LiveAppend([Reads(e)], [Reads(d)], k, after);
      LiveAppend([Reads(d)], [Reads(e)], k, after);
      assert a == [Reads(e)] + [Reads(d)] && b == [Reads(d)] + [Reads(e)];
      OneRead(d, k, after);
      OneRead(e, k, after);
      OneRead(d, k, after || k == e);
      OneRead(e, k, after || k == d);
    }
    forall k: nat ensures Touches(a, k) == Touches(b, k) {
      assert a[0] == b[1] && a[1] == b[0];
    }
  }

  lemma OneRead(d: nat, k: nat, after: bool)
    ensures Live([Reads(d)], k, after) == (after || k == d) && !LiveAtCall([Reads(d)], k, after)
  {
    assert [Reads(d)][1..] == [];
  }

  /** Sequences of nothing but reads use a depth alike when they read it alike. */
  lemma {:induction false} OnlyReads(ev: seq<DepthEvent>, k: nat, after: bool)
    requires forall i :: 0 <= i < |ev| ==> ev[i].Reads?
    ensures Live(ev, k, after) == (after || Reads(k) in ev) && !LiveAtCall(ev, k, after)
    ensures Touches(ev, k) == (Reads(k) in ev)
  {
    if ev != [] { OnlyReads(ev[1..], k, after); }
  }

  lemma ReadsAlike(a: seq<DepthEvent>, b: seq<DepthEvent>)
    requires forall i :: 0 <= i < |a| ==> a[i].Reads?
    requires forall i :: 0 <= i < |b| ==> b[i].Reads?
    requires forall k: nat :: Reads(k) in a <==> Reads(k) in b
    ensures Alike(a, b)
  {
    forall k: nat, after: bool ensures AlikeAt(a, b, k, after) && Touches(a, k) == Touches(b, k) {
      OnlyReads(a, k, after);
      OnlyReads(b, k, after);
    }
  }

  // ----- depths as slots -----

  /**
   Every depth in the slot of its own number and every binding in a register:
   the slots the code uses in this layout are its depths.
   */
  function Spread(): Layout {
    Layout(TargetRegisterFile([], [], 0), 0, 0, 0, [], [], 0, seq(MAX_FRAME_SLOTS, s => 100 + s), [])
  }

  lemma SpreadOperands(k: nat, s: nat)
    ensures EvalOperand(Spread(), k) == Slot(k)
    ensures s < MAX_FRAME_SLOTS ==> ValueOperand(Spread(), s) == Reg(100 + s)
  {}

  lemma MoveEvents(t: Target, r: nat, d: nat)
    ensures Events(Move(t, Reg(r), Slot(d))) == [Reads(d)]
    ensures Events(Move(t, Slot(d), Reg(r))) == [Writes(d)]
  {
    OneInstr(Mov(Reg(r), Slot(d)));
    OneInstr(Mov(Slot(d), Reg(r)));
  }

  /** Moves of depths into registers read exactly those depths. */
  lemma {:induction false} MovesRead(t: Target, moves: seq<(Operand, Operand)>)
    requires forall i :: 0 <= i < |moves| ==> moves[i].0.Reg? && moves[i].1.Slot?
    ensures |Events(MoveAll(t, moves))| == |moves|
    ensures forall i :: 0 <= i < |moves| ==> Events(MoveAll(t, moves))[i] == Reads(moves[i].1.slot)
  {
    if moves != [] {
      MovesRead(t, moves[1..]);
      MoveEvents(t, moves[0].0.reg, moves[0].1.slot);
      EventsAppend(Move(t, moves[0].0, moves[0].1), MoveAll(t, moves[1..]));
    }
  }

  lemma {:induction false} BoundaryReads(count: nat, d: nat)
    ensures |Boundary(count, d)| == count && forall i :: 0 <= i < count ==> Boundary(count, d)[i] == Reads(d + i)
  {
    if count > 0 { BoundaryReads(count - 1, d); }
  }

  /** Some move takes depth k. */
  predicate Moved(moves: seq<(Operand, Operand)>, k: nat) {
    exists i :: 0 <= i < |moves| && moves[i].1 == Slot(k)
  }

  /** Moving each of `count` depths once, in any order, uses them as the boundary does. */
  lemma MovesAlike(t: Target, moves: seq<(Operand, Operand)>, count: nat, d: nat)
    requires |moves| == count && forall i :: 0 <= i < count ==> moves[i].0.Reg? && moves[i].1.Slot?
    requires forall k: nat :: Moved(moves, k) <==> d <= k < d + count
    ensures Alike(Events(MoveAll(t, moves)), Boundary(count, d))
  {
    var a, b := Events(MoveAll(t, moves)), Boundary(count, d);
    MovesRead(t, moves);
    BoundaryReads(count, d);
    forall k: nat ensures Reads(k) in a <==> Reads(k) in b {
      if Reads(k) in a {
        var i :| 0 <= i < |a| && a[i] == Reads(k);
        assert moves[i].1 == Slot(k) && Moved(moves, k);
        assert b[k - d] == Reads(k);
      }
      if Reads(k) in b {
        var w :| 0 <= w < |b| && b[w] == Reads(k);
        assert k == d + w && Moved(moves, k);
        var i :| 0 <= i < |moves| && moves[i].1 == Slot(k);
        assert a[i] == Reads(k);
      }
    }
    ReadsAlike(a, b);
  }

  lemma BoundaryAlike(t: Target, order: seq<nat>, d: nat)
    ensures Alike(Events(MoveAll(t, BoundaryMoves(t, Spread(), order, d))), Boundary(|order|, d))
  {
    hide MoveAll, Events, Alike, Boundary;
    var moves := BoundaryMoves(t, Spread(), order, d);
    forall w | 0 <= w < |order| ensures moves[w].0.Reg? && moves[w].1 == Slot(d + w) { SpreadOperands(d + w, 0); }
    forall k: nat | d <= k < d + |order| ensures Moved(moves, k) { assert moves[k - d].1 == Slot(k); }
    MovesAlike(t, moves, |order|, d);
  }

  lemma SyscallAlike(t: Target, count: nat, d: nat)
    requires 0 < count <= MAX_SYSCALL_ARGUMENTS
    ensures Alike(Events(MoveAll(t, SyscallMoves(Spread(), count, d))), Boundary(count, d))
  {
    hide MoveAll, Events, Alike, Boundary, SyscallMoves;
    var moves := SyscallMoves(Spread(), count, d);
    Correctness.SyscallMoveAt(Spread(), count, d, 0);
    forall i | 0 <= i < count
      ensures moves[i].0.Reg? && moves[i].1 == Slot(d + Correctness.SyscallIndex(count, i)) && Correctness.SyscallIndex(count, i) < count
    {
      Correctness.SyscallMoveAt(Spread(), count, d, i);
      SpreadOperands(d + Correctness.SyscallIndex(count, i), 0);
    }
    forall k: nat | d <= k < d + count ensures Moved(moves, k) {
      var w := k - d;
      var i := if count <= 4 || w < 4 then w else if w == 4 then count - 1 else w - 1;
      assert Correctness.SyscallIndex(count, i) == w;
      assert moves[i].1 == Slot(k);
    }
    MovesAlike(t, moves, count, d);
  }

  // ----- one operator -----

  /** Loads of both operands in either order, register work, and a store. */
  lemma WorkAlike(loads: seq<Instr>, work: seq<Instr>, store: seq<Instr>, d: nat)
    requires Events(loads) == [Reads(d), Reads(d + 1)] || Events(loads) == [Reads(d + 1), Reads(d)]
    requires forall i :: 0 <= i < |work| ==> EventsOf(work[i]) == []
    requires Events(store) == [Writes(d)]
    ensures Alike(Events(loads + work + store), [Reads(d), Reads(d + 1), Writes(d)])
  {
    hide Events, EventsOf, Alike;
    Quiet(work);
    EventsAppend(loads, work);
    EventsAppend(loads + work, store);
    ReadsCommute(d, d + 1);
    SameAlike([Writes(d)]);
    SameAlike([Reads(d), Reads(d + 1)]);
    AlikeAppend(Events(loads), [Reads(d), Reads(d + 1)], [Writes(d)], [Writes(d)]);
    assert Events(loads) + [] == Events(loads);
    assert [Reads(d), Reads(d + 1)] + [Writes(d)] == [Reads(d), Reads(d + 1), Writes(d)];
  }

  lemma SameAlike(a: seq<DepthEvent>)
    ensures Alike(a, a)
  {}

  lemma LoadsRead(r: nat, a: nat, q: nat, b: nat)
    ensures Events([Mov(Reg(r), Slot(a)), Mov(Reg(q), Slot(b))]) == [Reads(a), Reads(b)]
  {
    TwoInstrs(Mov(Reg(r), Slot(a)), Mov(Reg(q), Slot(b)));
  }

  /** An instruction that names no slot and calls nothing. */
  predicate IsSilent(i: Instr) {
    match i
    case Mov(into, from) => into.Reg? && from.Reg?
    case AddFlags(into, left, right) => into.Reg? && left.Reg? && right.Reg?
    case NegFlags(into, from) => into.Reg? && from.Reg?
    case SubFlags(_, _, _) => false
    case Imul(_, _) => false
    case Cmp(_, _) => false
    case _ => !i.CallFunction? && !i.CallPrint? && !i.CallConcat? && !i.KernelCall?
  }

  lemma RegistersOnly(i: Instr)
    requires IsSilent(i)
    ensures EventsOf(i) == []
  {}

  lemma X64DivideWork(op: BinaryOp, d: nat)
    ensures var code := X64DivideCode(op, Slot(d), Slot(d + 1));
      && |code| >= 2 && code[0] == Mov(Reg(RCX), Slot(d + 1)) && code[1] == Mov(Reg(RAX), Slot(d))
      && forall i :: 2 <= i < |code| ==> EventsOf(code[i]) == []
  {
    hide EventsOf;
    var code := X64DivideCode(op, Slot(d), Slot(d + 1));
    forall i | 2 <= i < |code| ensures EventsOf(code[i]) == [] {
      RegistersOnly(code[i]);
    }
  }

  lemma A64DivideWork(op: BinaryOp, d: nat)
    ensures var code := A64DivideCode(op, Slot(d), Slot(d + 1));
      && |code| >= 2 && code[0] == Mov(Reg(0), Slot(d)) && code[1] == Mov(Reg(1), Slot(d + 1))
      && forall i :: 2 <= i < |code| ==> EventsOf(code[i]) == []
  {
    hide EventsOf;
    var code := A64DivideCode(op, Slot(d), Slot(d + 1));
    forall i | 2 <= i < |code| ensures EventsOf(code[i]) == [] {
      RegistersOnly(code[i]);
    }
  }

  lemma X64DivideAlike(op: BinaryOp, d: nat)
    requires op.FloorDivide? || op.FloorModulo?
    ensures Alike(Events(BinaryCode(X64, op, Slot(d), Slot(d + 1))), [Reads(d), Reads(d + 1), Writes(d)])
  {
    hide Events, Alike, EventsOf, X64DivideCode;
    var code := X64DivideCode(op, Slot(d), Slot(d + 1));
    X64DivideWork(op, d);
    var loads, work := [Mov(Reg(RCX), Slot(d + 1)), Mov(Reg(RAX), Slot(d))], code[2..];
    assert code == loads + work;
    MoveEvents(X64, 0, d);
    LoadsRead(RCX, d + 1, RAX, d);
    WorkAlike(loads, work, Move(X64, Slot(d), Reg(0)), d);
  }

  lemma A64DivideAlike(op: BinaryOp, d: nat)
    requires op.FloorDivide? || op.FloorModulo?
    ensures Alike(Events(BinaryCode(A64, op, Slot(d), Slot(d + 1))), [Reads(d), Reads(d + 1), Writes(d)])
  {
    hide Events, Alike, EventsOf, A64DivideCode;
    var code := A64DivideCode(op, Slot(d), Slot(d + 1));
    A64DivideWork(op, d);
    var loads, work := [Mov(Reg(0), Slot(d)), Mov(Reg(1), Slot(d + 1))], code[2..];
    assert code == loads + work;
    MoveEvents(A64, 0, d);
    LoadsRead(0, d, 1, d + 1);
    WorkAlike(loads, work, Move(A64, Slot(d), Reg(0)), d);
  }

  lemma A64OperatorAlike(op: BinaryOp, d: nat)
    requires !op.FloorDivide? && !op.FloorModulo?
    ensures Alike(Events(BinaryCode(A64, op, Slot(d), Slot(d + 1))), [Reads(d), Reads(d + 1), Writes(d)])
  {
    hide Events, Alike;
    var loads := [Mov(Reg(0), Slot(d))] + [Mov(Reg(1), Slot(d + 1))];
    assert loads == [Mov(Reg(0), Slot(d)), Mov(Reg(1), Slot(d + 1))];
    LoadsRead(0, d, 1, d + 1);
    StoreWrites(0, d);
    WorkAlike(loads, A64Compute(op, 0, 0, 1), [Mov(Slot(d), Reg(0))], d);
  }

  lemma StoreWrites(r: nat, d: nat)
    ensures Events([Mov(Slot(d), Reg(r))]) == [Writes(d)]
  {
    OneInstr(Mov(Slot(d), Reg(r)));
  }

  lemma X64SumAlike(op: BinaryOp, d: nat)
    requires op.Add? || op.Subtract?
    ensures Alike(Events(BinaryCode(X64, op, Slot(d), Slot(d + 1))), [Reads(d), Reads(d + 1), Writes(d)])
  {
    var sum := if op.Add? then AddFlags(Slot(d), Slot(d), Reg(RAX)) else SubFlags(Slot(d), Slot(d), Reg(RAX));
    var trap := TrapIf(IfOverflow, if op.Add? then AddOverflow else SubtractOverflow);
    OneInstr(Mov(Reg(RAX), Slot(d + 1)));
    TwoInstrs(sum, trap);
    EventsAppend([Mov(Reg(RAX), Slot(d + 1))], [sum, trap]);
    assert Events(BinaryCode(X64, op, Slot(d), Slot(d + 1))) == [Reads(d + 1), Reads(d)] + [Writes(d)];
    ReadsCommute(d, d + 1);
    SameAlike([Writes(d)]);
    AlikeAppend([Reads(d + 1), Reads(d)], [Reads(d), Reads(d + 1)], [Writes(d)], [Writes(d)]);
    assert [Reads(d), Reads(d + 1)] + [Writes(d)] == [Reads(d), Reads(d + 1), Writes(d)];
  }

  lemma CompareReads(t: Target, d: nat)
    ensures var ev := Events(CompareCode(t, Slot(d), Slot(d + 1)));
      ev == [Reads(d), Reads(d + 1)] || ev == [Reads(d + 1), Reads(d)]
  {
    match t
    case X64 =>
      TwoInstrs(Mov(Reg(RAX), Slot(d + 1)), Cmp(Slot(d), Reg(RAX)));
    case A64 =>
      LoadsRead(0, d, 1, d + 1);
      OneInstr(Cmp(Reg(0), Reg(1)));
      assert [Mov(Reg(0), Slot(d))] + [Mov(Reg(1), Slot(d + 1))] == [Mov(Reg(0), Slot(d)), Mov(Reg(1), Slot(d + 1))];
      EventsAppend([Mov(Reg(0), Slot(d))] + [Mov(Reg(1), Slot(d + 1))], [Cmp(Reg(0), Reg(1))]);
  }

  lemma X64CompareAlike(op: BinaryOp, d: nat)
    requires IsComparison(op)
    ensures Alike(Events(BinaryCode(X64, op, Slot(d), Slot(d + 1))), [Reads(d), Reads(d + 1), Writes(d)])
  {
    hide Events, Alike, CompareCode;
    var compare := CompareCode(X64, Slot(d), Slot(d + 1));
    CompareReads(X64, d);
    StoreWrites(RAX, d);
    WorkAlike(compare, [SetBool(RAX, CondOf(op))], [Mov(Slot(d), Reg(RAX))], d);
    assert compare + [SetBool(RAX, CondOf(op))] + [Mov(Slot(d), Reg(RAX))]
      == compare + [SetBool(RAX, CondOf(op)), Mov(Slot(d), Reg(RAX))];
  }

  lemma X64ProductAlike(d: nat)
    ensures Alike(Events(BinaryCode(X64, Multiply, Slot(d), Slot(d + 1))), [Reads(d), Reads(d + 1), Writes(d)])
  {
    hide Events, Alike;
    var loads := [Mov(Reg(RAX), Slot(d)), Imul(RAX, Slot(d + 1))];
    TwoInstrs(loads[0], loads[1]);
    StoreWrites(RAX, d);
    WorkAlike(loads, [TrapIf(IfOverflow, MultiplyOverflow)], [Mov(Slot(d), Reg(RAX))], d);
    assert loads + [TrapIf(IfOverflow, MultiplyOverflow)] + [Mov(Slot(d), Reg(RAX))]
      == BinaryCode(X64, Multiply, Slot(d), Slot(d + 1));
  }

  lemma OperatorAlike(t: Target, op: BinaryOp, d: nat)
    ensures Alike(Events(BinaryCode(t, op, Slot(d), Slot(d + 1))), [Reads(d), Reads(d + 1), Writes(d)])
  {
    hide Events, Alike, BinaryCode;
    if op.FloorDivide? || op.FloorModulo? {
      if t.X64? { X64DivideAlike(op, d); } else { A64DivideAlike(op, d); }
    } else if t.A64? {
      A64OperatorAlike(op, d);
    } else if op.Multiply? {
      X64ProductAlike(d);
    } else if op.Add? || op.Subtract? {
      X64SumAlike(op, d);
    } else {
      X64CompareAlike(op, d);
    }
  }

  lemma NegateAlike(t: Target, d: nat)
    ensures Events(NegateCode(t, Slot(d))) == [Reads(d), Writes(d)]
  {
    match t
    case X64 => TwoInstrs(NegFlags(Slot(d), Slot(d)), TrapIf(IfOverflow, NegateOverflow));
    case A64 =>
      var load, work, store := [Mov(Reg(0), Slot(d))], [NegFlags(Reg(0), Reg(0)), TrapIf(IfOverflow, NegateOverflow)], [Mov(Slot(d), Reg(0))];
      OneInstr(load[0]);
      TwoInstrs(work[0], work[1]);
      OneInstr(store[0]);
      EventsAppend(load, work);
      EventsAppend(load + work, store);
  }

  // ----- expressions -----

  /** Every well-formed program's trees fit the spread layout. */
  predicate FitsSpread(functions: seq<Function>, slots: nat) {
    slots <= MAX_FRAME_SLOTS && forall f :: 0 <= f < |functions| ==> functions[f].parameters <= MAX_FRAME_SLOTS
  }

  /**
   The code of an expression reads and writes depths, and calls, as its trace
   says: no depth is live at a call in one and not in the other.
   */
  lemma {:induction false} CodeFollowsTrace(t: Target, functions: seq<Function>, slots: nat, e: Expr, d: nat)
    requires WellFormedExpr(functions, slots, e) && FitsSpread(functions, slots)
    ensures Alike(Events(ExprCode(t, Spread(), e, d)), Trace(e, d))
    decreases e, 1, 0
  {
    hide Events, Alike, BinaryCode, NegateCode, Spread, EvalOperand, ValueOperand, MoveAll, Move, EventsOf;
    SpreadOperands(d, 0);
    SpreadOperands(d + 1, 0);
    match e
    case Literal(value) => LiteralEvents(value, d);
    case TextLiteral(text) => TextEvents(text, d);
    case Parameter(slot) =>
      SpreadOperands(d, slot);
      MoveEvents(t, 100 + slot, d);
      SameAlike([Writes(d)]);
    case Call(_, _, _) => CallFollowsTrace(t, functions, slots, e, d);
    case Syscall(_) => SyscallFollowsTrace(t, functions, slots, e, d);
    case Negate(left) =>
      CodeFollowsTrace(t, functions, slots, left, d);
      NegateAlike(t, d);
      SameAlike([Reads(d), Writes(d)]);
      Joined(ExprCode(t, Spread(), left, d), Trace(left, d), NegateCode(t, Slot(d)), [Reads(d), Writes(d)]);
    case Concat(_, _) => ConcatFollowsTrace(t, functions, slots, e, d);
    case Binary(op, left, right) =>
      CodeFollowsTrace(t, functions, slots, left, d);
      CodeFollowsTrace(t, functions, slots, right, d + 1);
      OperatorAlike(t, op, d);
      Joined(ExprCode(t, Spread(), right, d + 1), Trace(right, d + 1),
             BinaryCode(t, op, Slot(d), Slot(d + 1)), [Reads(d), Reads(d + 1), Writes(d)]);
      Joined(ExprCode(t, Spread(), left, d), Trace(left, d),
             ExprCode(t, Spread(), right, d + 1) + BinaryCode(t, op, Slot(d), Slot(d + 1)),
             Trace(right, d + 1) + [Reads(d), Reads(d + 1), Writes(d)]);
  }

  lemma Joined(a: seq<Instr>, a': seq<DepthEvent>, b: seq<Instr>, b': seq<DepthEvent>)
    requires Alike(Events(a), a') && Alike(Events(b), b')
    ensures Alike(Events(a + b), a' + b')
  {
    EventsAppend(a, b);
    AlikeAppend(Events(a), a', Events(b), b');
  }

  lemma LiteralEvents(value: Int64, d: nat)
    ensures Alike(Events(LiteralCode(Slot(d), value)), [Writes(d)])
  {
    TwoInstrs(Imm(0, value), Mov(Slot(d), Reg(0)));
    assert Events(LiteralCode(Slot(d), value)) == [Writes(d)];
    SameAlike([Writes(d)]);
  }

  lemma TextEvents(text: string, d: nat)
    ensures Alike(Events(TextLiteralCode(Slot(d), text)), [Writes(d)])
  {
    TwoInstrs(TextAddress(0, text), Mov(Slot(d), Reg(0)));
    assert Events(TextLiteralCode(Slot(d), text)) == [Writes(d)];
    SameAlike([Writes(d)]);
  }

  /** A call and the store of its result. */
  lemma CallEvents(t: Target, call: Instr, d: nat)
    requires EventsOf(call) == [CallHappens]
    ensures Alike(Events([call] + Move(t, Slot(d), Reg(0))), [CallHappens, Writes(d)])
  {
    hide EventsOf, Alike, Events;
    OneInstr(call);
    MoveEvents(t, 0, d);
    EventsAppend([call], Move(t, Slot(d), Reg(0)));
    SameAlike([CallHappens, Writes(d)]);
    assert [CallHappens] + [Writes(d)] == [CallHappens, Writes(d)];
  }

  lemma {:induction false} CallFollowsTrace(t: Target, functions: seq<Function>, slots: nat, e: Expr, d: nat)
    requires e.Call? && WellFormedExpr(functions, slots, e) && FitsSpread(functions, slots)
    ensures Alike(Events(ExprCode(t, Spread(), e, d)), Trace(e, d))
    decreases e, 0, WrittenCount(e) + 1
  {
    hide Events, Alike, Spread, EvalOperand, MoveAll, Move, BoundaryMoves, ArgumentsCode, TraceFrom, Boundary;
    SpreadOperands(d, 0);
    ArgumentsFollowTrace(t, functions, slots, e, 0, d);
    BoundaryAlike(t, e.order, d);
    CallEvents(t, CallFunction(e.function_), d);
    Joined(MoveAll(t, BoundaryMoves(t, Spread(), e.order, d)), Boundary(|e.order|, d),
           [CallFunction(e.function_)] + Move(t, Slot(d), Reg(0)), [CallHappens, Writes(d)]);
    Joined(ArgumentsCode(t, Spread(), e, 0, d), TraceFrom(e, 0, d),
           MoveAll(t, BoundaryMoves(t, Spread(), e.order, d)) + ([CallFunction(e.function_)] + Move(t, Slot(d), Reg(0))),
           Boundary(|e.order|, d) + [CallHappens, Writes(d)]);
  }

  lemma {:induction false} SyscallFollowsTrace(t: Target, functions: seq<Function>, slots: nat, e: Expr, d: nat)
    requires e.Syscall? && WellFormedExpr(functions, slots, e) && FitsSpread(functions, slots)
    ensures Alike(Events(ExprCode(t, Spread(), e, d)), Trace(e, d))
    decreases e, 0, WrittenCount(e) + 1
  {
    hide Events, Alike, Spread, EvalOperand, MoveAll, Move, SyscallMoves, ArgumentsCode, TraceFrom, Boundary;
    var count := |e.arguments|;
    SpreadOperands(d, 0);
    ArgumentsFollowTrace(t, functions, slots, e, 0, d);
    SyscallAlike(t, count, d);
    CallEvents(t, KernelCall(count), d);
    Joined(MoveAll(t, SyscallMoves(Spread(), count, d)), Boundary(count, d),
           [KernelCall(count)] + Move(t, Slot(d), Reg(0)), [CallHappens, Writes(d)]);
    Joined(ArgumentsCode(t, Spread(), e, 0, d), TraceFrom(e, 0, d),
           MoveAll(t, SyscallMoves(Spread(), count, d)) + ([KernelCall(count)] + Move(t, Slot(d), Reg(0))),
           Boundary(count, d) + [CallHappens, Writes(d)]);
  }

  lemma ConcatEvents(t: Target, d: nat)
    ensures Alike(Events(MoveAll(t, ConcatMoves(t, Spread(), d)) + ([CallConcat] + Move(t, Slot(d), Reg(0)))),
                  [Reads(d), Reads(d + 1), CallHappens, Writes(d)])
  {
    hide Alike, Spread, EvalOperand, Events;
    var moves := ConcatMoves(t, Spread(), d);
    SpreadOperands(d, 0);
    SpreadOperands(d + 1, 0);
    MovesRead(t, moves);
    assert Events(MoveAll(t, moves)) == [Reads(d), Reads(d + 1)];
    CallEvents(t, CallConcat, d);
    SameAlike([Reads(d), Reads(d + 1)]);
    Joined(MoveAll(t, moves), [Reads(d), Reads(d + 1)], [CallConcat] + Move(t, Slot(d), Reg(0)), [CallHappens, Writes(d)]);
    assert [Reads(d), Reads(d + 1)] + [CallHappens, Writes(d)] == [Reads(d), Reads(d + 1), CallHappens, Writes(d)];
  }

  lemma {:induction false} ConcatFollowsTrace(t: Target, functions: seq<Function>, slots: nat, e: Expr, d: nat)
    requires e.Concat? && WellFormedExpr(functions, slots, e) && FitsSpread(functions, slots)
    ensures Alike(Events(ExprCode(t, Spread(), e, d)), Trace(e, d))
    decreases e, 0, WrittenCount(e) + 1
  {
    hide Events, Alike, Spread, EvalOperand, MoveAll, Move, ConcatMoves;
    SpreadOperands(d, 0);
    CodeFollowsTrace(t, functions, slots, e.left, d);
    CodeFollowsTrace(t, functions, slots, e.right, d + 1);
    ConcatEvents(t, d);
    var rest := MoveAll(t, ConcatMoves(t, Spread(), d)) + ([CallConcat] + Move(t, Slot(d), Reg(0)));
    var ev := [Reads(d), Reads(d + 1), CallHappens, Writes(d)];
    Joined(ExprCode(t, Spread(), e.right, d + 1), Trace(e.right, d + 1), rest, ev);
    Joined(ExprCode(t, Spread(), e.left, d), Trace(e.left, d), ExprCode(t, Spread(), e.right, d + 1) + rest, Trace(e.right, d + 1) + ev);
  }

  lemma {:induction false} ArgumentsFollowTrace(t: Target, functions: seq<Function>, slots: nat, e: Expr, w: nat, d: nat)
    requires WellFormedExpr(functions, slots, e) && FitsSpread(functions, slots) && w <= WrittenCount(e)
    ensures Alike(Events(ArgumentsCode(t, Spread(), e, w, d)), TraceFrom(e, w, d))
    decreases e, 0, WrittenCount(e) - w
  {
    hide Alike, Spread, ExprCode, Trace;
    if w < WrittenCount(e) {
      WellFormedWritten(functions, slots, e);
      CodeFollowsTrace(t, functions, slots, Written(e, w), d + w);
      ArgumentsFollowTrace(t, functions, slots, e, w + 1, d);
      Joined(ExprCode(t, Spread(), Written(e, w), d + w), Trace(Written(e, w), d + w),
             ArgumentsCode(t, Spread(), e, w + 1, d), TraceFrom(e, w + 1, d));
    } else {
      SameAlike([]);
    }
  }

  // ----- statements and bodies -----

  lemma ReturnFollowsTrace(t: Target, functions: seq<Function>, slots: nat, self: nat, value: Expr, at: nat, epilogue: int, closing: bool)
    requires WellFormedExpr(functions, slots, value) && FitsSpread(functions, slots)
    ensures Alike(Events(ReturnCode(t, Spread(), self, value, at, epilogue, closing)), ReturnTrace(value))
  {
    hide Events, Alike, Spread, EvalOperand, Move, ExprCode, Trace, TailCode, TraceFrom, Boundary;
    if value.Call? {
      TailFollowsTrace(t, functions, slots, self, value, at);
    } else {
      SpreadOperands(0, 0);
      CodeFollowsTrace(t, functions, slots, value, 0);
      ReadAlike(t, 0);
      Joined(ExprCode(t, Spread(), value, 0), Trace(value, 0), Move(t, Reg(0), Slot(0)), [Reads(0)]);
      var code := ResultCode(t, Spread(), value);
      var jump := if closing then [] else [Jmp(epilogue - (at + |code| + 1))];
      QuietAlike(jump);
      Joined(code, ReturnTrace(value), jump, []);
      assert ReturnTrace(value) + [] == ReturnTrace(value);
    }
  }

  lemma ReadAlike(t: Target, r: nat)
    ensures Alike(Events(Move(t, Reg(r), Slot(0))), [Reads(0)])
  {
    MoveEvents(t, r, 0);
    SameAlike([Reads(0)]);
  }

  lemma QuietAlike(code: seq<Instr>)
    requires forall i :: 0 <= i < |code| ==> EventsOf(code[i]) == []
    ensures Alike(Events(code), [])
  {
    Quiet(code);
    SameAlike([]);
  }

  lemma SelfAlike(t: Target, order: seq<nat>)
    requires IsPermutation(order) && |order| <= MAX_FRAME_SLOTS
    ensures Alike(Events(MoveAll(t, SelfMoves(Spread(), order))), Boundary(|order|, 0))
  {
    hide MoveAll, Events, Alike, Boundary;
    var moves := SelfMoves(Spread(), order);
    forall w | 0 <= w < |order| ensures moves[w].0.Reg? && moves[w].1 == Slot(w) { SpreadOperands(w, order[w]); }
    forall k: nat | k < |order| ensures Moved(moves, k) { assert moves[k].1 == Slot(k); }
    MovesAlike(t, moves, |order|, 0);
  }

  lemma NothingRestored(t: Target)
    ensures MoveAll(t, RestoreMoves(Spread())) == []
  {}

  lemma TailFollowsTrace(t: Target, functions: seq<Function>, slots: nat, self: nat, call: Expr, at: nat)
    requires call.Call? && WellFormedExpr(functions, slots, call) && FitsSpread(functions, slots)
    ensures Alike(Events(TailCode(t, Spread(), self, call, at)), ReturnTrace(call))
  {
    hide Events, Alike, Spread, MoveAll, ArgumentsCode, TraceFrom, Boundary, BoundaryMoves, SelfMoves, RestoreMoves;
    var arguments := ArgumentsCode(t, Spread(), call, 0, 0);
    var boundary := Boundary(|call.order|, 0);
    ArgumentsFollowTrace(t, functions, slots, call, 0, 0);
    var moves, leave: seq<Instr>;
    if call.function_ == self {
      SelfAlike(t, call.order);
      moves := MoveAll(t, SelfMoves(Spread(), call.order));
      leave := [Jmp(-(at + |arguments| + |moves| + 1))];
    } else {
      BoundaryAlike(t, call.order, 0);
      NothingRestored(t);
      moves := MoveAll(t, BoundaryMoves(t, Spread(), call.order, 0));
      leave := TeardownCode(t, Spread()) + [TailJump(call.function_)];
    }
    QuietAlike(leave);
    Joined(moves, boundary, leave, []);
    assert boundary + [] == boundary;
    Joined(arguments, TraceFrom(call, 0, 0), moves + leave, boundary);
  }

  lemma GuardFollowsTrace(t: Target, functions: seq<Function>, slots: nat, condition: Expr)
    requires WellFormedExpr(functions, slots, condition) && FitsSpread(functions, slots)
    ensures Alike(Events(GuardCode(t, Spread(), condition)), GuardTrace(condition))
  {
    hide Events, Alike, Spread, EvalOperand, ExprCode, Trace, CompareCode;
    SpreadOperands(0, 0);
    SpreadOperands(1, 0);
    if condition.Binary? && IsComparison(condition.op) {
      var left, right := condition.left, condition.right;
      var compare := CompareCode(t, Slot(0), Slot(1));
      CodeFollowsTrace(t, functions, slots, left, 0);
      CodeFollowsTrace(t, functions, slots, right, 1);
      ComparisonAlike(t);
      Joined(ExprCode(t, Spread(), right, 1), Trace(right, 1), compare, [Reads(0), Reads(1)]);
      Joined(ExprCode(t, Spread(), left, 0), Trace(left, 0), ExprCode(t, Spread(), right, 1) + compare, Trace(right, 1) + [Reads(0), Reads(1)]);
    } else {
      CodeFollowsTrace(t, functions, slots, condition, 0);
      TestAlike(t);
      var test := match t case X64 => [Mov(Reg(RAX), Slot(0)), Test(RAX)] case A64 => A64Load(Slot(0), 0);
      Joined(ExprCode(t, Spread(), condition, 0), Trace(condition, 0), test, [Reads(0)]);
    }
  }

  lemma ComparisonAlike(t: Target)
    ensures Alike(Events(CompareCode(t, Slot(0), Slot(1))), [Reads(0), Reads(1)])
  {
    hide Alike, CompareCode;
    CompareReads(t, 0);
    ReadsCommute(0, 1);
    SameAlike([Reads(0), Reads(1)]);
  }

  lemma TestAlike(t: Target)
    ensures Alike(Events(match t case X64 => [Mov(Reg(RAX), Slot(0)), Test(RAX)] case A64 => A64Load(Slot(0), 0)), [Reads(0)])
  {
    TwoInstrs(Mov(Reg(RAX), Slot(0)), Test(RAX));
    OneInstr(Mov(Reg(0), Slot(0)));
    SameAlike([Reads(0)]);
  }

  lemma SkipIsQuiet(t: Target, condition: Expr, disp: int)
    ensures Alike(Events([SkipBranch(t, Spread(), condition, disp)]), [])
  {
    QuietAlike([SkipBranch(t, Spread(), condition, disp)]);
  }

  lemma StmtFollowsTrace(t: Target, functions: seq<Function>, slots: nat, self: nat, s: Stmt, at: nat, epilogue: int, closing: bool)
    requires WellFormedStmt(functions, slots, s) && FitsSpread(functions, slots)
    ensures Alike(Events(StmtCode(t, Spread(), self, s, at, epilogue, closing)), StmtTrace(s))
  {
    hide Events, Alike, Spread, EvalOperand, ValueOperand, Move, ExprCode, Trace, ReturnCode, ReturnTrace, GuardCode, GuardTrace, SkipBranch;
    SpreadOperands(0, 0);
    match s
    case IfReturn(condition, value) =>
      var guard := GuardCode(t, Spread(), condition);
      var guarded := ReturnCode(t, Spread(), self, value, at + |guard| + 1, epilogue, false);
      var skip := [SkipBranch(t, Spread(), condition, |guarded|)];
      GuardFollowsTrace(t, functions, slots, condition);
      ReturnFollowsTrace(t, functions, slots, self, value, at + |guard| + 1, epilogue, false);
      SkipIsQuiet(t, condition, |guarded|);
      Joined(skip, [], guarded, ReturnTrace(value));
      assert [] + ReturnTrace(value) == ReturnTrace(value);
      Joined(guard, GuardTrace(condition), skip + guarded, ReturnTrace(value));
    case ReturnStmt(value) => ReturnFollowsTrace(t, functions, slots, self, value, at, epilogue, closing);
    case PrintStmt(value) =>
      CodeFollowsTrace(t, functions, slots, value, 0);
      PrintAlike(t);
      Joined(ExprCode(t, Spread(), value, 0), Trace(value, 0), Move(t, Reg(ArgumentRegister(t, 0)), Slot(0)) + [CallPrint], [Reads(0), CallHappens]);
    case Let(slot, value) =>
      SpreadOperands(0, slot);
      CodeFollowsTrace(t, functions, slots, value, 0);
      ReadAlike(t, 100 + slot);
      Joined(ExprCode(t, Spread(), value, 0), Trace(value, 0), Move(t, Reg(100 + slot), Slot(0)), [Reads(0)]);
    case Evaluate(value) => CodeFollowsTrace(t, functions, slots, value, 0);
  }

  lemma PrintAlike(t: Target)
    ensures Alike(Events(Move(t, Reg(ArgumentRegister(t, 0)), Slot(0)) + [CallPrint]), [Reads(0), CallHappens])
  {
    hide Alike;
    MoveEvents(t, ArgumentRegister(t, 0), 0);
    OneInstr(CallPrint);
    EventsAppend(Move(t, Reg(ArgumentRegister(t, 0)), Slot(0)), [CallPrint]);
    SameAlike([Reads(0), CallHappens]);
    assert [Reads(0)] + [CallHappens] == [Reads(0), CallHappens];
  }

  lemma {:induction false} BodyFollowsTrace(
      t: Target, functions: seq<Function>, slots: nat, self: nat, body: seq<Stmt>, i: nat, at: nat, epilogue: int)
    requires FitsSpread(functions, slots) && forall j :: i <= j < |body| ==> WellFormedStmt(functions, slots, body[j])
    ensures Alike(Events(BodyCode(t, Spread(), self, body, i, at, epilogue)), BodyTrace(body, i))
    decreases |body| - i
  {
    hide Events, Alike, Spread, StmtCode, StmtTrace;
    if i < |body| {
      var code := StmtCode(t, Spread(), self, body[i], at, epilogue, i + 1 == |body|);
      StmtFollowsTrace(t, functions, slots, self, body[i], at, epilogue, i + 1 == |body|);
      BodyFollowsTrace(t, functions, slots, self, body, i + 1, at + |code|, epilogue);
      Joined(code, StmtTrace(body[i]), BodyCode(t, Spread(), self, body, i + 1, at + |code|, epilogue), BodyTrace(body, i + 1));
    } else {
      QuietAlike([]);
    }
  }

  // ----- the analysis is exact about the code -----

  /** A returned call without arguments evaluates nothing and holds nothing. */
  predicate IsBareTail(s: Stmt) {
    s.ReturnStmt? && s.value.Call? && s.value.order == []
  }

  lemma ReturnTouches(functions: seq<Function>, slots: nat, value: Expr, j: nat)
    requires WellFormedExpr(functions, slots, value)
    ensures Touches(ReturnTrace(value), j) ==> j < Need(value) && !(value.Call? && value.order == [])
    ensures j == Need(value) - 1 && !(value.Call? && value.order == []) ==> Touches(ReturnTrace(value), j)
    ensures value.Call? && value.order == [] ==> Need(value) == 1
  {
    if value.Call? {
      var count := WrittenCount(value);
      WellFormedWritten(functions, slots, value);
      NeedFromIsExact(functions, slots, value, 0, 0, j);
      BoundaryTouches(count, 0, j);
      TouchesAppend(TraceFrom(value, 0, 0), Boundary(count, 0), j);
    } else {
      NeedIsExact(functions, slots, value, 0, j);
      ReadTouches(0, j);
      TouchesAppend(Trace(value, 0), [Reads(0)], j);
    }
  }

  lemma ReadTouches(d: nat, j: nat)
    ensures Touches([Reads(d)], j) == (j == d)
  {
    assert [Reads(d)][0] == Reads(d);
  }

  lemma GuardTouches(functions: seq<Function>, slots: nat, condition: Expr, j: nat)
    requires WellFormedExpr(functions, slots, condition)
    ensures Touches(GuardTrace(condition), j) ==> j < Need(condition)
    ensures j == Need(condition) - 1 ==> Touches(GuardTrace(condition), j)
  {
    ReadTouches(0, j);
    if condition.Binary? && IsComparison(condition.op) {
      NeedIsExact(functions, slots, condition.left, 0, j);
      NeedIsExact(functions, slots, condition.right, 1, j);
      ReadTouches(1, j);
      TouchesAppend([Reads(0)], [Reads(1)], j);
      assert [Reads(0)] + [Reads(1)] == [Reads(0), Reads(1)];
      TouchesAppend(Trace(condition.right, 1), [Reads(0), Reads(1)], j);
      TouchesAppend(Trace(condition.left, 0), Trace(condition.right, 1) + [Reads(0), Reads(1)], j);
    } else {
      NeedIsExact(functions, slots, condition, 0, j);
      TouchesAppend(Trace(condition, 0), [Reads(0)], j);
    }
  }

  lemma StmtTouches(functions: seq<Function>, slots: nat, s: Stmt, j: nat)
    requires WellFormedStmt(functions, slots, s)
    ensures Touches(StmtTrace(s), j) ==> j < StmtNeed(s) && !IsBareTail(s)
    ensures j == StmtNeed(s) - 1 && !IsBareTail(s) ==> Touches(StmtTrace(s), j)
    ensures IsBareTail(s) ==> StmtNeed(s) == 1
  {
    hide Touches, GuardTrace, ReturnTrace, Trace;
    match s
    case IfReturn(condition, value) =>
      GuardTouches(functions, slots, condition, j);
      ReturnTouches(functions, slots, value, j);
      TouchesAppend(GuardTrace(condition), ReturnTrace(value), j);
    case ReturnStmt(value) => ReturnTouches(functions, slots, value, j);
    case PrintStmt(value) =>
      NeedIsExact(functions, slots, value, 0, j);
      ReadTouches(0, j);
      CallTouches(j);
      TouchesAppend([Reads(0)], [CallHappens], j);
      assert [Reads(0)] + [CallHappens] == [Reads(0), CallHappens];
      TouchesAppend(Trace(value, 0), [Reads(0), CallHappens], j);
    case Let(_, value) =>
      NeedIsExact(functions, slots, value, 0, j);
      ReadTouches(0, j);
      TouchesAppend(Trace(value, 0), [Reads(0)], j);
    case Evaluate(value) => NeedIsExact(functions, slots, value, 0, j);
  }

  lemma CallTouches(j: nat)
    ensures !Touches([CallHappens], j)
  {}

  lemma {:induction false} BodyTouches(functions: seq<Function>, slots: nat, body: seq<Stmt>, i: nat, j: nat)
    requires i <= |body| && forall n :: i <= n < |body| ==> WellFormedStmt(functions, slots, body[n])
    ensures Touches(BodyTrace(body, i), j) ==> j < BodyNeed(body, i)
    ensures j == BodyNeed(body, i) - 1 ==> (Touches(BodyTrace(body, i), j) <==> Evaluating(body, i))
    ensures !Evaluating(body, i) ==> BodyNeed(body, i) <= 1 && !Touches(BodyTrace(body, i), j)
    decreases |body| - i
  {
    hide Touches, StmtTrace;
    if i < |body| {
      StmtTouches(functions, slots, body[i], j);
      BodyTouches(functions, slots, body, i + 1, j);
      TouchesAppend(StmtTrace(body[i]), BodyTrace(body, i + 1), j);
    } else {
      NothingTouched(j);
    }
  }

  lemma NothingTouched(j: nat)
    ensures !Touches([], j)
  {}

  /** Some statement from the i-th on evaluates something. */
  predicate Evaluating(body: seq<Stmt>, i: nat)
    decreases |body| - i
  {
    i < |body| && (!IsBareTail(body[i]) || Evaluating(body, i + 1))
  }

  /**
   The analysis against the emitted body: a depth is marked if and only if the
   instructions keep it waiting across some call, none waits at the end, and
   the depth counted is one more than the deepest used, provided the body
   evaluates anything at all.
   */
  lemma AnalysisIsExact(t: Target, p: Program, self: nat, epilogue: int, k: nat)
    requires WellFormed(p) && self < |p.functions|
    ensures var body := p.functions[self].body;
      var ev := Events(BodyCode(t, Spread(), self, body, 0, 0, epilogue));
      && (BodyCrosses(body, 0, k) <==> LiveAtCall(ev, k, false))
      && !Live(ev, k, false)
      && (Touches(ev, k) ==> k < BodyNeed(body, 0))
      && (k == BodyNeed(body, 0) - 1 ==> (Touches(ev, k) <==> Evaluating(body, 0)))
  {
    hide Events, Touches, Live, LiveAtCall, BodyCode, BodyTrace, Spread, BodyNeed, BodyCrosses;
    var f := p.functions[self];
    assert FitsSpread(p.functions, f.FrameSlots());
    BodyFollowsTrace(t, p.functions, f.FrameSlots(), self, f.body, 0, 0, epilogue);
    assert AlikeAt(Events(BodyCode(t, Spread(), self, f.body, 0, 0, epilogue)), BodyTrace(f.body, 0), k, false);
    BodyCrossesIsLiveness(p.functions, f.FrameSlots(), f.body, 0, k);
    BodyTouches(p.functions, f.FrameSlots(), f.body, 0, k);
  }

  const BARE_TAIL := [ReturnStmt(Call(1, [], []))]
  const BARE_TAIL_SIGNATURES := [Signature([], IntKind, false), Signature([], IntKind, true)]

  /** A main that does nothing, and a function without parameters that returns a call of itself. */
  function BareTailProgram(kernel: Kernel): Program {
    Program([Function(0, 0, []), Function(0, 0, BARE_TAIL)], 0, kernel)
  }

  lemma BareTailIsWellFormed(kernel: Kernel)
    ensures WellFormed(BareTailProgram(kernel))
  {
    var functions := BareTailProgram(kernel).functions;
    assert WellFormedExpr(functions, 0, BARE_TAIL[0].value);
    assert forall f :: 0 <= f < 2 ==> WellFormedFunction(functions, functions[f]);
  }

  lemma BareTailIsWellTyped(kernel: Kernel)
    ensures WellTyped(BareTailProgram(kernel), BARE_TAIL_SIGNATURES)
  {
    var p, signatures := BareTailProgram(kernel), BARE_TAIL_SIGNATURES;
    var kinds := ParameterKinds(signatures[1]);
    assert KindOf(signatures, 0, kinds, BARE_TAIL[0].value) == Of(IntKind);
    assert TypedFrom(signatures, 0, signatures[1], BARE_TAIL, 1, kinds);
    assert TypedFrom(signatures, 0, signatures[1], BARE_TAIL, 0, kinds);
    assert TypedFunction(p, signatures, 1);
    assert TypedFunction(p, signatures, 0);
  }

  /** Where the count is wrong: a returned call without arguments, for which one depth is counted and none is used. */
  lemma BareTailCountsOne(t: Target, epilogue: int, kernel: Kernel, k: nat)
    ensures WellFormed(BareTailProgram(kernel)) && WellTyped(BareTailProgram(kernel), BARE_TAIL_SIGNATURES)
    ensures BareTailProgram(kernel).functions[1].body == BARE_TAIL
    ensures BodyNeed(BARE_TAIL, 0) == 1
    ensures !Touches(Events(BodyCode(t, Spread(), 1, BARE_TAIL, 0, 0, epilogue)), k)
  {
    hide Events, Touches, Live, LiveAtCall, BodyCode, Spread, BodyCrosses, WellFormed, WellTyped, StmtNeed, BodyNeed, Evaluating;
    BareTailIsWellFormed(kernel);
    BareTailIsWellTyped(kernel);
    BareTailNeed();
    AnalysisIsExact(t, BareTailProgram(kernel), 1, epilogue, 0);
    AnalysisIsExact(t, BareTailProgram(kernel), 1, epilogue, k);
  }

  lemma BareTailNeed()
    ensures BodyNeed(BARE_TAIL, 0) == 1 && !Evaluating(BARE_TAIL, 0)
  {
    assert BodyNeed(BARE_TAIL, 1) == 0 && !Evaluating(BARE_TAIL, 1);
    assert !HasWritten(BARE_TAIL[0].value, 0);
  }
}
