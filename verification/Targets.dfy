/**
 What a target declares about its registers, the operands code can name, and
 the frame layout of one function.
 */
module Targets {

  datatype Target = X64 | A64

  datatype Operand = Reg(reg: nat) | Slot(slot: nat)

  /** Caller-saved scratch, callee-preserved registers, and the "nothing allocated" value. */
  datatype TargetRegisterFile = TargetRegisterFile(scratch: seq<nat>, callSafe: seq<nat>, noRegister: nat) {
    function Allocatable(): nat { |scratch| + |callSafe| }
  }

  const RAX: nat := 0
  const RCX: nat := 1
  const RDX: nat := 2
  const RSI: nat := 6
  const RDI: nat := 7
  const R8: nat := 8
  const R9: nat := 9
  const R10: nat := 10
  const R11: nat := 11

  const X64_FILE := TargetRegisterFile([R10, R11], [3, 12, 13, 14, 15], 16)
  const A64_FILE := TargetRegisterFile([12, 13, 14, 15], [19, 20, 21, 22, 23, 24, 25, 26], 32)

  function FileOf(t: Target): TargetRegisterFile {
    if t.X64? then X64_FILE else A64_FILE
  }

  /** No register is declared twice and none is the "nothing allocated" value. */
  predicate Distinct(file: TargetRegisterFile) {
    && file.noRegister !in file.scratch && file.noRegister !in file.callSafe
    && (forall i, j :: 0 <= i < j < |file.scratch| ==> file.scratch[i] != file.scratch[j])
    && (forall i, j :: 0 <= i < j < |file.callSafe| ==> file.callSafe[i] != file.callSafe[j])
    && (forall r :: r in file.scratch ==> r !in file.callSafe)
  }

  predicate IsAllocatable(file: TargetRegisterFile, r: nat) {
    r in file.scratch || r in file.callSafe
  }

  const X64_ARGUMENTS: seq<nat> := [RDI, RSI, RDX, RCX, R8, R9]
  const X64_SYSCALL: seq<nat> := [RAX, RDI, RSI, RDX, R10, R8, R9]
  /** The one syscall register that is also allocatable. */
  const SYSCALL_ALLOCATABLE_INDEX: nat := 4

  /** The register carrying the argument of declaration slot s. */
  function ArgumentRegister(t: Target, s: nat): nat {
    if t.X64? then (if s < 6 then X64_ARGUMENTS[s] else 0) else s
  }

  // ----- frame layout -----

  datatype Layout = Layout(
    file: TargetRegisterFile,
    frameSlots: nat,
    spillSlots: nat,
    evalDepth: nat,
    evalRegister: seq<nat>,
    evalSpill: seq<nat>,
    deepSpillBase: nat,
    slotRegister: seq<nat>,
    saved: seq<nat>)
  {
    function TotalSlots(): nat { frameSlots + spillSlots + |saved| }

    /** Frame size in 8-byte words, rounded so that the frame is a multiple of 16 bytes. */
    function FrameWords(): nat { (TotalSlots() + 1) / 2 * 2 }
  }

  /** The frame holds every slot, keeps the stack a multiple of 16 bytes and wastes at most one word. */
  lemma FrameIsAligned(l: Layout)
    ensures l.TotalSlots() <= l.FrameWords() <= l.TotalSlots() + 1 && 8 * l.FrameWords() % 16 == 0
  {}

  /** The location of an evaluation depth: its register, its spill slot, or a slot past every tracked depth. */
  function EvalOperand(l: Layout, depth: nat): Operand {
    if depth < |l.evalRegister| && l.evalRegister[depth] != l.file.noRegister then
      Reg(l.evalRegister[depth])
    else if depth < |l.evalSpill| then
      Slot(l.frameSlots + l.evalSpill[depth])
    else
      Slot(l.frameSlots + l.deepSpillBase + (if depth >= l.file.Allocatable() then depth - l.file.Allocatable() else 0))
  }

  /** The location of a binding; without a register, the slot of its own number. */
  function ValueOperand(l: Layout, slot: nat): Operand {
    if slot < |l.slotRegister| && l.slotRegister[slot] != l.file.noRegister then Reg(l.slotRegister[slot])
    else Slot(slot)
  }

  function SavedOperand(l: Layout, index: nat): Operand {
    Slot(l.frameSlots + l.spillSlots + index)
  }

  /** A location a call preserves. */
  predicate CallSafe(l: Layout, o: Operand) {
    o.Slot? || o.reg in l.file.callSafe
  }

  /**
   Every location the layout hands out is inside the frame or an allocatable
   register, no two are the same, and every callee-preserved register it uses
   has a saved slot.
   */
  ghost predicate Sound(l: Layout) {
    && Distinct(l.file)
    && (forall k :: 0 <= k < l.evalDepth ==> EvalLocated(l, EvalOperand(l, k)))
    && (forall j, k :: 0 <= j < k < l.evalDepth ==> EvalOperand(l, j) != EvalOperand(l, k))
    && (forall s :: 0 <= s < l.frameSlots ==> ValueLocated(l, s, ValueOperand(l, s)))
    && (forall s, u :: 0 <= s < u < l.frameSlots ==> ValueOperand(l, s) != ValueOperand(l, u))
    && (forall k, s :: 0 <= k < l.evalDepth && 0 <= s < l.frameSlots ==> EvalOperand(l, k) != ValueOperand(l, s))
    && (forall i :: 0 <= i < |l.saved| ==> l.saved[i] in l.file.callSafe)
    && (forall i, j :: 0 <= i < j < |l.saved| ==> l.saved[i] != l.saved[j])
  }

  ghost predicate RegisterKept(l: Layout, r: nat) {
    IsAllocatable(l.file, r) && (r in l.file.callSafe ==> r in l.saved)
  }

  ghost predicate EvalLocated(l: Layout, o: Operand) {
    match o
    case Reg(r) => RegisterKept(l, r)
    case Slot(s) => l.frameSlots <= s < l.frameSlots + l.spillSlots
  }

  ghost predicate ValueLocated(l: Layout, slot: nat, o: Operand) {
    match o
    case Reg(r) => RegisterKept(l, r)
    case Slot(s) => s == slot
  }
}
