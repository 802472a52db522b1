/** The check made before a system call's boundary is filled, and why it never refuses. */
module SyscallBoundary {
  import opened Core
  import opened Targets

  /** The argument at depth k waits in the index-th boundary register. */
  predicate Waits(l: Layout, k: nat, index: nat)
    requires index < MAX_SYSCALL_ARGUMENTS
  {
    EvalOperand(l, k) == Reg(X64_SYSCALL[index])
  }

  predicate Occupied(l: Layout, count: nat, d: nat, index: nat)
    requires index < MAX_SYSCALL_ARGUMENTS
  {
    exists k :: d <= k < d + count && Waits(l, k, index)
  }

  /** No argument waits in a register that is filled before the argument has left it. */
  predicate Clear(l: Layout, count: nat, d: nat)
    requires count <= MAX_SYSCALL_ARGUMENTS
  {
    forall index :: 0 <= index < count && index != SYSCALL_ALLOCATABLE_INDEX ==> !Occupied(l, count, d, index)
  }

  method CheckRegister(l: Layout, count: nat, d: nat, index: nat) returns (occupied: bool)
    requires index < MAX_SYSCALL_ARGUMENTS
    ensures occupied <==> Occupied(l, count, d, index)
  {
    var other := 0;
    while other < count
      invariant 0 <= other <= count
      invariant forall k :: d <= k < d + other ==> !Waits(l, k, index)
    {
      if EvalOperand(l, d + other) == Reg(X64_SYSCALL[index]) {
        assert Waits(l, d + other, index);
        return true;
      }
      other := other + 1;
    }
    occupied := false;
  }

  method CheckBoundary(l: Layout, count: nat, d: nat) returns (clear: bool)
    requires count <= MAX_SYSCALL_ARGUMENTS
    ensures clear <==> Clear(l, count, d)
    ensures l.file == X64_FILE && Sound(l) && d + count <= l.evalDepth ==> clear
  {
    hide Occupied, Sound;
    if l.file == X64_FILE && Sound(l) && d + count <= l.evalDepth { BoundaryIsClear(l, count, d); }
    var index := 0;
    while index < count
      invariant 0 <= index <= count
      invariant forall i :: 0 <= i < index && i != SYSCALL_ALLOCATABLE_INDEX ==> !Occupied(l, count, d, i)
    {
      if index != SYSCALL_ALLOCATABLE_INDEX {
        var occupied := CheckRegister(l, count, d, index);
        if occupied { return false; }
      }
      index := index + 1;
    }
    clear := true;
  }

  /** Under a layout that keeps the allocator's promises the check passes. */
  lemma BoundaryIsClear(l: Layout, count: nat, d: nat)
    requires count <= MAX_SYSCALL_ARGUMENTS
    requires l.file == X64_FILE && Sound(l) && d + count <= l.evalDepth
    ensures Clear(l, count, d)
  {
    forall index, k | 0 <= index < count && index != SYSCALL_ALLOCATABLE_INDEX && d <= k < d + count
      ensures !Waits(l, k, index)
    {
      assert EvalLocated(l, EvalOperand(l, k));
      BoundaryUnallocated(index);
    }
  }

  /** Of the seven boundary registers, allocation can hand out the one at SYSCALL_ALLOCATABLE_INDEX and no other. */
  lemma BoundaryUnallocated(index: nat)
    requires index < |X64_SYSCALL|
    ensures IsAllocatable(X64_FILE, X64_SYSCALL[index]) <==> index == SYSCALL_ALLOCATABLE_INDEX
  {}
}
