/** Which locations a stretch of code leaves alone, and sequences of moves. */
module Frames {
  import opened Words
  import opened Core
  import opened Targets
  import opened Machine
  import opened Lowering
  import opened Blocks
  import opened Leaves

  /** The slot whose cell is at address a; negative when a is no slot. */
  function SlotOf(t: Target, m: Machine, a: int): int {
    if t.X64? then m.fp - 1 - a else a - m.sp
  }

  /** The cell at address a belongs to a slot in w. */
  ghost predicate CellIn(t: Target, m: Machine, a: int, w: iset<Operand>) {
    SlotOf(t, m, a) >= 0 && Slot(SlotOf(t, m, a)) in w
  }

  /**
   Nothing outside w changed: no register, and no cell at or above the stack
   pointer, which itself is back where it was.
   */
  ghost predicate Same(t: Target, m: Machine, m': Machine, w: iset<Operand>) {
    && m'.sp == m.sp && m'.fp == m.fp
    && (forall r: nat :: Reg(r) !in w ==> Get(m'.regs, r) == Get(m.regs, r))
    && (forall a :: a >= m.sp && !CellIn(t, m, a, w) ==> Get(m'.mem, a) == Get(m.mem, a))
  }

  lemma SameRead(t: Target, m: Machine, m': Machine, w: iset<Operand>, o: Operand)
    requires Same(t, m, m', w) && o !in w
    requires o.Slot? ==> SlotAddress(t, m, o.slot) >= m.sp
    ensures Read(t, m', o) == Read(t, m, o)
  {
    if o.Slot? {
      assert SlotOf(t, m, SlotAddress(t, m, o.slot)) == o.slot;
    }
  }

  lemma SameTrans(t: Target, m: Machine, m1: Machine, m2: Machine, w: iset<Operand>)
    requires Same(t, m, m1, w) && Same(t, m1, m2, w)
    ensures Same(t, m, m2, w)
  {
    forall a | a >= m.sp && !CellIn(t, m, a, w)
      ensures Get(m2.mem, a) == Get(m.mem, a)
    {
      assert !CellIn(t, m1, a, w);
    }
  }

  lemma SameWider(t: Target, m: Machine, m': Machine, w: iset<Operand>, w': iset<Operand>)
    requires Same(t, m, m', w) && w <= w'
    ensures Same(t, m, m', w')
  {
    forall a | a >= m.sp && !CellIn(t, m, a, w')
      ensures Get(m'.mem, a) == Get(m.mem, a)
    {
      assert !CellIn(t, m, a, w);
    }
  }

  /** One location, and the registers that are never allocated. */
  ghost function Just(file: TargetRegisterFile, into: Operand): iset<Operand> {
    iset o: Operand | o == into || (o.Reg? && !IsAllocatable(file, o.reg))
  }

  lemma OnlyIsSame(t: Target, m: Machine, m': Machine, into: Operand)
    requires Only(t, m, m', into)
    ensures Same(t, m, m', Just(FileOf(t), into))
  {
    var w := Just(FileOf(t), into);
    forall a | a >= m.sp && !CellIn(t, m, a, w)
      ensures Get(m'.mem, a) == Get(m.mem, a)
    {
      if into.Slot? && a == SlotAddress(t, m, into.slot) {
        assert SlotOf(t, m, a) == into.slot;
      }
    }
  }

  // ----- sequences of moves -----

  type Moves = seq<(Operand, Operand)>

  predicate SlotToSlot(move: (Operand, Operand)) {
    move.0.Slot? && move.1.Slot?
  }

  /** No move overwrites what a later one reads or has already placed. */
  ghost predicate Orderly(moves: Moves) {
    && (forall i, j :: 0 <= i < j < |moves| && SlotToSlot(moves[i]) ==> moves[j].1 != Reg(0))
    && (forall i, j :: 0 <= i < j < |moves| ==> moves[i].0 != moves[j].0 && moves[i].0 != moves[j].1)
    && (forall i, j :: 0 <= i < j < |moves| && moves[i].0 == Reg(0) ==> !SlotToSlot(moves[j]))
  }

  /** The locations a sequence of moves writes; register 0 carries a move between two slots. */
  ghost function Destinations(moves: Moves): iset<Operand> {
    iset o: Operand | Destined(moves, o)
  }

  ghost predicate Destined(moves: Moves, o: Operand) {
    exists i :: 0 <= i < |moves| && (o == moves[i].0 || (o == Reg(0) && SlotToSlot(moves[i])))
  }

  ghost predicate Placed(t: Target, m: Machine, m': Machine, moves: Moves) {
    forall i :: 0 <= i < |moves| ==> Read(t, m', moves[i].0) == Read(t, m, moves[i].1)
  }

  lemma OneMove(t: Target, into: Operand, from: Operand, m: Machine)
    ensures RunBlock(t, Move(t, into, from), 0, m).Falls?
    ensures var m' := RunBlock(t, Move(t, into, from), 0, m).m;
      && m'.out == m.out && Read(t, m', into) == Read(t, m, from)
      && Same(t, m, m', Destinations([(into, from)]))
  {
    MoveLeaf(t, into, from, m);
    var m' := RunBlock(t, Move(t, into, from), 0, m).m;
    MoveRegisters(t, into, from, m);
    var w := Destinations([(into, from)]);
    assert [(into, from)][0] == (into, from);
    assert into.Slot? ==> SlotOf(t, m, SlotAddress(t, m, into.slot)) == into.slot;
    forall a | a >= m.sp && !CellIn(t, m, a, w)
      ensures Get(m'.mem, a) == Get(m.mem, a)
    {}
  }

  /** A move changes no register but its destination, and register 0 between two slots. */
  lemma MoveRegisters(t: Target, into: Operand, from: Operand, m: Machine)
    requires RunBlock(t, Move(t, into, from), 0, m).Falls?
    ensures var m' := RunBlock(t, Move(t, into, from), 0, m).m;
      forall r: nat :: Reg(r) != into && (r != 0 || !SlotToSlot((into, from))) ==> Get(m'.regs, r) == Get(m.regs, r)
  {
    var code := Move(t, into, from);
    if |code| == 1 {
      var m1 := Write(t, m, into, Read(t, m, from));
      assert RunBlock(t, code, 1, m1) == Falls(m1);
    } else if |code| == 2 {
      var m1 := Write(t, m, Reg(0), Read(t, m, from));
      var m2 := Write(t, m1, into, Read(t, m1, Reg(0)));
      assert RunBlock(t, code, 2, m2) == Falls(m2);
      assert RunBlock(t, code, 1, m1) == Falls(m2);
    }
  }

  /** Every slot the moves name lies at or above the stack pointer. */
  ghost predicate Above(t: Target, m: Machine, moves: Moves) {
    forall i :: 0 <= i < |moves| ==>
      && (moves[i].0.Slot? ==> SlotAddress(t, m, moves[i].0.slot) >= m.sp)
      && (moves[i].1.Slot? ==> SlotAddress(t, m, moves[i].1.slot) >= m.sp)
  }

  /** An orderly sequence places every source as it was at the start. */
  lemma {:induction false} MovesPlace(t: Target, moves: Moves, m: Machine)
    requires Orderly(moves) && Above(t, m, moves)
    ensures RunBlock(t, MoveAll(t, moves), 0, m).Falls?
    ensures var m' := RunBlock(t, MoveAll(t, moves), 0, m).m;
      m'.out == m.out && Placed(t, m, m', moves) && Same(t, m, m', Destinations(moves))
    decreases |moves|
  {
    if moves == [] {
    } else {
      hide Same, Placed, RunBlock, Move, Read;
      var first, rest := moves[0], moves[1..];
      OneMove(t, first.0, first.1, m);
      var m1 := RunBlock(t, Move(t, first.0, first.1), 0, m).m;
      MovesPlace(t, rest, m1);
      BlockAppend(t, Move(t, first.0, first.1), MoveAll(t, rest), m);
      var m2 := RunBlock(t, MoveAll(t, rest), 0, m1).m;
      assert Destinations([first]) <= Destinations(moves);
      assert Destinations(rest) <= Destinations(moves);
      SameWider(t, m, m1, Destinations([first]), Destinations(moves));
      SameWider(t, m1, m2, Destinations(rest), Destinations(moves));
      SameTrans(t, m, m1, m2, Destinations(moves));
      MovesPlaceAll(t, moves, m, m1, m2);
    }
  }

  lemma MovesPlaceAll(t: Target, moves: Moves, m: Machine, m1: Machine, m2: Machine)
    requires moves != [] && Orderly(moves) && Above(t, m, moves)
    requires Same(t, m, m1, Destinations([moves[0]])) && Read(t, m1, moves[0].0) == Read(t, m, moves[0].1)
    requires Placed(t, m1, m2, moves[1..]) && Same(t, m1, m2, Destinations(moves[1..]))
    ensures Placed(t, m, m2, moves)
  {
    forall i | 0 <= i < |moves|
      ensures Read(t, m2, moves[i].0) == Read(t, m, moves[i].1)
    {
      if i == 0 {
        SameRead(t, m1, m2, Destinations(moves[1..]), moves[0].0);
      } else {
        assert moves[1..][i - 1] == moves[i];
        assert Read(t, m2, moves[1..][i - 1].0) == Read(t, m1, moves[1..][i - 1].1);
        SameRead(t, m, m1, Destinations([moves[0]]), moves[i].1);
      }
    }
  }
}
