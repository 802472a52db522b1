/** Runs of code, and stretches of it that neither call nor return. */
module Blocks {
  import opened Words
  import opened Targets
  import opened Machine

  predicate CodeAt(code: seq<Instr>, pc: int, c: seq<Instr>) {
    0 <= pc && pc + |c| <= |code| && code[pc..pc + |c|] == c
  }

  lemma CodeAtSplit(code: seq<Instr>, pc: int, a: seq<Instr>, b: seq<Instr>)
    requires CodeAt(code, pc, a + b)
    ensures CodeAt(code, pc, a) && CodeAt(code, pc + |a|, b)
  {
    var whole := code[pc..pc + |a + b|];
    assert a == whole[..|a|] == code[pc..pc + |a|];
    assert b == whole[|a|..] == code[pc + |a|..pc + |a| + |b|];
  }

  lemma {:induction false} RunPlus(image: Image, s: State, a: nat, b: nat)
    ensures Run(image, s, a + b) == Run(image, Run(image, s, a), b)
    decreases a
  {
    if a > 0 {
      RunPlus(image, Step(image, s), a - 1, b);
    }
  }

  /** How a stretch of local code ends: past its last instruction, at a trap stub, or not at all. */
  datatype BlockEnd = Falls(m: Machine) | Stops(kind: TrapKind, out: seq<Event>) | Broken

  function RunBlock(t: Target, c: seq<Instr>, i: nat, m: Machine): BlockEnd
    decreases |c| - i
  {
    if i >= |c| then (if i == |c| then Falls(m) else Broken)
    else
      match ExecLocal(t, c[i], m)
      case Next(m', skip) => if skip < 0 then Broken else RunBlock(t, c, i + 1 + skip, m')
      case Traps(kind) => Stops(kind, m.out)
      case Faults => Broken
      case Transfers => Broken
  }

  /** The machine runs a block exactly as RunBlock says. */
  lemma {:induction false} BlockRuns(image: Image, c: seq<Instr>, i: nat, m: Machine, pc: int) returns (n: nat)
    requires CodeAt(image.code, pc, c) && !RunBlock(image.target, c, i, m).Broken?
    ensures match RunBlock(image.target, c, i, m)
            case Falls(m') => Run(image, Running(pc + i, m), n) == Running(pc + |c|, m')
            case Stops(kind, out) => Run(image, Running(pc + i, m), n) == Trapped(kind, out)
            case Broken => true
    decreases |c| - i
  {
    hide ExecLocal, Transfer;
    if i == |c| {
      n := 0;
    } else {
      assert image.code[pc + i] == c[i];
      match ExecLocal(image.target, c[i], m)
      case Next(m', skip) =>
        var k := BlockRuns(image, c, i + 1 + skip, m', pc);
        assert Step(image, Running(pc + i, m)) == Running(pc + (i + 1 + skip), m');
        n := k + 1;
      case Traps(kind) =>
        assert Step(image, Running(pc + i, m)) == Trapped(kind, m.out);
        n := 1;
        assert Run(image, Trapped(kind, m.out), 0) == Trapped(kind, m.out);
    }
  }

  lemma {:induction false} BlockPrefix(t: Target, a: seq<Instr>, b: seq<Instr>, i: nat, m: Machine)
    requires !RunBlock(t, a, i, m).Broken?
    ensures match RunBlock(t, a, i, m)
            case Falls(m') => RunBlock(t, a + b, i, m) == RunBlock(t, a + b, |a|, m')
            case stops => RunBlock(t, a + b, i, m) == stops
    decreases |a| - i
  {
    hide ExecLocal;
    if i < |a| {
      assert (a + b)[i] == a[i];
      match ExecLocal(t, a[i], m)
      case Next(m', skip) => BlockPrefix(t, a, b, i + 1 + skip, m');
      case Traps(_) =>
    }
  }

  lemma {:induction false} BlockSuffix(t: Target, a: seq<Instr>, b: seq<Instr>, i: nat, m: Machine)
    ensures RunBlock(t, a + b, |a| + i, m) == RunBlock(t, b, i, m)
    decreases |b| - i
  {
    hide ExecLocal;
    if i < |b| {
      assert (a + b)[|a| + i] == b[i];
      match ExecLocal(t, b[i], m)
      case Next(m', skip) =>
        if skip >= 0 {
          BlockSuffix(t, a, b, i + 1 + skip, m');
        }
      case _ =>
    }
  }

  /** Two blocks in a row run one after the other. */
  lemma BlockAppend(t: Target, a: seq<Instr>, b: seq<Instr>, m: Machine)
    requires !RunBlock(t, a, 0, m).Broken?
    ensures match RunBlock(t, a, 0, m)
            case Falls(m') => RunBlock(t, a + b, 0, m) == RunBlock(t, b, 0, m')
            case stops => RunBlock(t, a + b, 0, m) == stops
  {
    BlockPrefix(t, a, b, 0, m);
    match RunBlock(t, a, 0, m)
    case Falls(m') => BlockSuffix(t, a, b, 0, m');
    case _ =>
  }
}
