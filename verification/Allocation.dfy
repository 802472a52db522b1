/** Register allocation for either target: depths first, then bindings, then spill slots and the saved list. */
module Allocation {
  import opened Words
  import opened Core
  import opened Pressure
  import opened Targets
  import opened Preservation

  const MAX_TARGET_REGISTERS: nat := 32

  /** A register file the shared arrays can hold. */
  predicate Declared(file: TargetRegisterFile) {
    && Distinct(file) && file.Allocatable() <= MAX_TRACKED_DEPTH
    && (forall i :: 0 <= i < |file.scratch| ==> file.scratch[i] < MAX_TARGET_REGISTERS)
    && (forall i :: 0 <= i < |file.callSafe| ==> file.callSafe[i] < MAX_TARGET_REGISTERS)
  }

  class RegisterFile {
    const target: TargetRegisterFile
    const taken: array<bool>

    ghost predicate Valid() {
      Declared(target) && taken.Length == MAX_TARGET_REGISTERS
    }

    constructor (file: TargetRegisterFile)
      requires Declared(file)
      ensures Valid() && target == file && fresh(taken)
      ensures forall r :: 0 <= r < MAX_TARGET_REGISTERS ==> !taken[r]
    {
      target := file;
      taken := new bool[MAX_TARGET_REGISTERS](_ => false);
    }

    /** Claims a register of one class, in the class's own order. */
    method Take(class_: seq<nat>) returns (reg: nat)
      requires Valid() && target.noRegister !in class_
      requires forall i :: 0 <= i < |class_| ==> class_[i] < MAX_TARGET_REGISTERS
      modifies taken
      ensures Claimed(old(taken[..]), taken[..], reg)
      ensures if reg == target.noRegister then Exhausted(class_, old(taken[..])) else FirstFree(class_, old(taken[..]), reg)
    {
      for i := 0 to |class_|
        invariant forall j :: 0 <= j < i ==> taken[class_[j]]
        invariant taken[..] == old(taken[..])
      {
        assert class_[i] in class_;
        if !taken[class_[i]] {
          assert FreeAt(class_, taken[..], i);
          taken[class_[i]] := true;
          return class_[i];
        }
      }
      return target.noRegister;
    }

    /** The register of an evaluation depth. */
    method TakeEval(acrossCalls: bool) returns (reg: nat)
      requires Valid()
      modifies taken
      ensures Claimed(old(taken[..]), taken[..], reg)
      ensures DepthServed(target, old(taken[..]), acrossCalls, reg)
    {
      if !acrossCalls {
        reg := Take(target.scratch);
        if reg != target.noRegister { return; }
      }
      reg := Take(target.callSafe);
    }

    /** The register of a parameter or local that the body reads `uses` times. */
    method TakeValue(acrossCalls: bool, uses: nat) returns (reg: nat)
      requires Valid()
      modifies taken
      ensures Claimed(old(taken[..]), taken[..], reg)
      ensures BindingServed(target, old(taken[..]), acrossCalls, uses, reg)
    {
      if uses == 0 { return target.noRegister; }
      if !acrossCalls {
        reg := Take(target.scratch);
        if reg != target.noRegister { return; }
      }
      if uses < 2 { return target.noRegister; }
      reg := Take(target.callSafe);
    }

    /** One register changed hands, or none. */
    ghost predicate Claimed(before: seq<bool>, after: seq<bool>, reg: nat) {
      && |before| == |after| == MAX_TARGET_REGISTERS
      && (reg == target.noRegister ==> after == before)
      && (reg != target.noRegister ==> reg < MAX_TARGET_REGISTERS && !before[reg] && after == before[reg := true])
    }
  }

  // ----- how a class is served -----

  /** Every register of the class is taken. */
  ghost predicate Exhausted(class_: seq<nat>, taken: seq<bool>) {
    forall i :: 0 <= i < |class_| ==> class_[i] < |taken| && taken[class_[i]]
  }

  ghost predicate FreeAt(class_: seq<nat>, taken: seq<bool>, i: nat) {
    && i < |class_| && class_[i] < |taken| && !taken[class_[i]]
    && forall j :: 0 <= j < i ==> class_[j] < |taken| && taken[class_[j]]
  }

  /** reg is the register declared first among the free ones of the class. */
  ghost predicate FirstFree(class_: seq<nat>, taken: seq<bool>, reg: nat) {
    exists i: nat :: FreeAt(class_, taken, i) && class_[i] == reg
  }

  /** What a value gets: scratch before call-safe unless it crosses calls, and nothing only when neither is left. */
  ghost predicate DepthServed(file: TargetRegisterFile, taken: seq<bool>, acrossCalls: bool, reg: nat) {
    if !acrossCalls && !Exhausted(file.scratch, taken) then FirstFree(file.scratch, taken, reg)
    else if !Exhausted(file.callSafe, taken) then FirstFree(file.callSafe, taken, reg)
    else reg == file.noRegister
  }

  lemma ServedFromFile(file: TargetRegisterFile, taken: seq<bool>, acrossCalls: bool, reg: nat)
    requires DepthServed(file, taken, acrossCalls, reg) && reg != file.noRegister
    ensures IsAllocatable(file, reg) && (acrossCalls ==> reg in file.callSafe)
  {
    if !acrossCalls && !Exhausted(file.scratch, taken) {
      var i: nat :| FreeAt(file.scratch, taken, i) && file.scratch[i] == reg;
    } else {
      var i: nat :| FreeAt(file.callSafe, taken, i) && file.callSafe[i] == reg;
    }
  }

  /** A binding never read gets nothing, and one read once nothing that would have to be saved. */
  ghost predicate BindingServed(file: TargetRegisterFile, taken: seq<bool>, acrossCalls: bool, uses: nat, reg: nat) {
    if uses == 0 || (uses == 1 && (acrossCalls || Exhausted(file.scratch, taken))) then reg == file.noRegister
    else DepthServed(file, taken, acrossCalls, reg)
  }

  /** How many of the first k depths cross calls. */
  function Crossings(across: seq<bool>, k: nat): (n: nat)
    requires k <= |across|
    ensures n <= k
  {
    if k == 0 then 0 else Crossings(across, k - 1) + (if across[k - 1] then 1 else 0)
  }

  function Min(a: nat, b: nat): nat {
    if a < b then a else b
  }

  function Nth(file: TargetRegisterFile, class_: seq<nat>, n: nat): nat {
    if n < |class_| then class_[n] else file.noRegister
  }

  /**
   The register of a depth, in closed form: the n-th depth that crosses calls
   has the n-th call-safe register; the others have the scratch registers and
   then the call-safe ones no crossing depth has.
   */
  function DepthRegister(file: TargetRegisterFile, across: seq<bool>, tracked: nat, k: nat): nat
    requires k < tracked <= |across|
  {
    var n := Crossings(across, k);
    if across[k] then Nth(file, file.callSafe, n)
    else if k - n < |file.scratch| then file.scratch[k - n]
    else Nth(file, file.callSafe, Crossings(across, tracked) + k - n - |file.scratch|)
  }

  /** How far each class is used up when the sweep for crossing or other depths reaches depth d. */
  function ScratchUsed(file: TargetRegisterFile, across: seq<bool>, crossing: bool, d: nat): (n: nat)
    requires d <= |across|
    ensures n <= |file.scratch|
  {
    if crossing then 0 else Min(d - Crossings(across, d), |file.scratch|)
  }

  function CallSafeUsed(file: TargetRegisterFile, across: seq<bool>, tracked: nat, crossing: bool, d: nat): (n: nat)
    requires d <= tracked <= |across|
    ensures n <= |file.callSafe|
  {
    if crossing then Min(Crossings(across, d), |file.callSafe|)
    else Min(Crossings(across, tracked) + d - Crossings(across, d) - ScratchUsed(file, across, false, d), |file.callSafe|)
  }

  /** The taken registers are the first a of the scratch class and the first b of the call-safe one. */
  ghost predicate UsedUp(file: TargetRegisterFile, taken: seq<bool>, a: nat, b: nat) {
    && |taken| == MAX_TARGET_REGISTERS && Declared(file) && a <= |file.scratch| && b <= |file.callSafe|
    && (forall i :: 0 <= i < |file.scratch| ==> taken[file.scratch[i]] == (i < a))
    && (forall i :: 0 <= i < |file.callSafe| ==> taken[file.callSafe[i]] == (i < b))
  }

  lemma ScratchNext(file: TargetRegisterFile, taken: seq<bool>, a: nat, b: nat, reg: nat)
    requires UsedUp(file, taken, a, b)
    ensures Exhausted(file.scratch, taken) <==> a == |file.scratch|
    ensures FirstFree(file.scratch, taken, reg) ==> a < |file.scratch| && reg == file.scratch[a]
    ensures a < |file.scratch| ==> UsedUp(file, taken[file.scratch[a] := true], a + 1, b)
  {
    if a < |file.scratch| { assert file.scratch[a] in file.scratch && !taken[file.scratch[a]]; }
    assert forall i :: 0 <= i < |file.callSafe| ==> file.callSafe[i] in file.callSafe;
    if FirstFree(file.scratch, taken, reg) {
      var i: nat :| FreeAt(file.scratch, taken, i) && file.scratch[i] == reg;
      assert i == a;
    }
  }

  lemma CallSafeNext(file: TargetRegisterFile, taken: seq<bool>, a: nat, b: nat, reg: nat)
    requires UsedUp(file, taken, a, b)
    ensures Exhausted(file.callSafe, taken) <==> b == |file.callSafe|
    ensures FirstFree(file.callSafe, taken, reg) ==> b < |file.callSafe| && reg == file.callSafe[b]
    ensures b < |file.callSafe| ==> UsedUp(file, taken[file.callSafe[b] := true], a, b + 1)
  {
    if b < |file.callSafe| { assert file.callSafe[b] in file.callSafe && !taken[file.callSafe[b]]; }
    assert forall i :: 0 <= i < |file.scratch| ==> file.scratch[i] in file.scratch;
    if FirstFree(file.callSafe, taken, reg) {
      var i: nat :| FreeAt(file.callSafe, taken, i) && file.callSafe[i] == reg;
      assert i == b;
    }
  }

  lemma {:induction false} CrossingsMono(across: seq<bool>, d: nat, tracked: nat)
    requires d <= tracked <= |across|
    ensures Crossings(across, d) <= Crossings(across, tracked)
    ensures d - Crossings(across, d) <= tracked - Crossings(across, tracked)
    decreases tracked
  {
    if d < tracked { CrossingsMono(across, d, tracked - 1); }
  }

  /** One depth served in its sweep gets the register of the closed form. */
  lemma ServedInTurn(file: TargetRegisterFile, across: seq<bool>, tracked: nat, d: nat, taken: seq<bool>, taken': seq<bool>, reg: nat)
    requires d < tracked <= |across| && tracked <= file.Allocatable()
    requires UsedUp(file, taken, ScratchUsed(file, across, across[d], d), CallSafeUsed(file, across, tracked, across[d], d))
    requires DepthServed(file, taken, across[d], reg) && |taken'| == |taken|
    requires reg == file.noRegister ==> taken' == taken
    requires reg != file.noRegister ==> reg < MAX_TARGET_REGISTERS && taken' == taken[reg := true]
    ensures reg == DepthRegister(file, across, tracked, d)
    ensures UsedUp(file, taken', ScratchUsed(file, across, across[d], d + 1), CallSafeUsed(file, across, tracked, across[d], d + 1))
  {
    var a, b := ScratchUsed(file, across, across[d], d), CallSafeUsed(file, across, tracked, across[d], d);
    CrossingsMono(across, d + 1, tracked);
    ScratchNext(file, taken, a, b, reg);
    CallSafeNext(file, taken, a, b, reg);
  }

  /** A depth of the other kind leaves the count of its sweep as it is. */
  lemma SweepSkips(file: TargetRegisterFile, across: seq<bool>, tracked: nat, d: nat)
    requires d < tracked <= |across|
    ensures ScratchUsed(file, across, !across[d], d + 1) == ScratchUsed(file, across, !across[d], d)
    ensures CallSafeUsed(file, across, tracked, !across[d], d + 1) == CallSafeUsed(file, across, tracked, !across[d], d)
  {}

  /** Only a depth that crosses calls can be left without a register. */
  lemma OnlyCrossingSpill(file: TargetRegisterFile, across: seq<bool>, tracked: nat, k: nat)
    requires Declared(file) && k < tracked <= |across| && tracked <= file.Allocatable()
    ensures DepthRegister(file, across, tracked, k) == file.noRegister <==> across[k] && Crossings(across, k) >= |file.callSafe|
  {
    CrossingsMono(across, k + 1, tracked);
  }

  /** How many times e reads the given binding. */
  function SlotUses(e: Expr, slot: nat): nat
    decreases e, 1, 0
  {
    match e
    case Literal(_) => 0
    case TextLiteral(_) => 0
    case Parameter(s) => if s == slot then 1 else 0
    case Call(_, arguments, _) => ArgumentUses(e, arguments, 0, slot)
    case Syscall(arguments) => ArgumentUses(e, arguments, 0, slot)
    case Negate(left) => SlotUses(left, slot)
    case Concat(left, right) => SlotUses(left, slot) + SlotUses(right, slot)
    case Binary(_, left, right) => SlotUses(left, slot) + SlotUses(right, slot)
  }

  function ArgumentUses(e: Expr, arguments: seq<Expr>, i: nat, slot: nat): nat
    requires forall j :: 0 <= j < |arguments| ==> arguments[j] < e
    decreases e, 0, |arguments| - i
  {
    if i >= |arguments| then 0 else SlotUses(arguments[i], slot) + ArgumentUses(e, arguments, i + 1, slot)
  }

  function BodyUses(body: seq<Stmt>, i: nat, slot: nat): nat
    decreases |body| - i
  {
    if i >= |body| then 0
    else (if body[i].IfReturn? then SlotUses(body[i].condition, slot) else 0) + SlotUses(body[i].value, slot)
         + BodyUses(body, i + 1, slot)
  }

  /** The bindings an expression reads, once for every time. */
  function ReadsOf(e: Expr): multiset<nat>
    decreases e, 1, 0
  {
    match e
    case Parameter(s) => multiset{s}
    case Call(_, arguments, _) => ReadsOfAll(e, arguments)
    case Syscall(arguments) => ReadsOfAll(e, arguments)
    case Negate(left) => ReadsOf(left)
    case Concat(left, right) => ReadsOf(left) + ReadsOf(right)
    case Binary(_, left, right) => ReadsOf(left) + ReadsOf(right)
    case _ => multiset{}
  }

  function ReadsOfAll(e: Expr, arguments: seq<Expr>): multiset<nat>
    requires forall j :: 0 <= j < |arguments| ==> arguments[j] < e
    decreases e, 0, |arguments|
  {
    if arguments == [] then multiset{} else ReadsOf(arguments[0]) + ReadsOfAll(e, arguments[1..])
  }

  function ReadsOfBody(body: seq<Stmt>): multiset<nat> {
    if body == [] then multiset{}
    else (if body[0].IfReturn? then ReadsOf(body[0].condition) else multiset{}) + ReadsOf(body[0].value) + ReadsOfBody(body[1..])
  }

  lemma {:induction false} BodyUsesAreReads(body: seq<Stmt>, i: nat, slot: nat)
    requires i <= |body|
    ensures BodyUses(body, i, slot) == ReadsOfBody(body[i..])[slot]
    decreases |body| - i
  {
    hide SlotUses, ReadsOf;
    if i < |body| {
      assert body[i..][0] == body[i] && body[i..][1..] == body[i + 1..];
      UsesAreReads(body[i].value, slot);
      if body[i].IfReturn? { UsesAreReads(body[i].condition, slot); }
      BodyUsesAreReads(body, i + 1, slot);
    }
  }

  /** The uses counted are the times the binding is read. */
  lemma {:induction false} UsesAreReads(e: Expr, slot: nat)
    ensures SlotUses(e, slot) == ReadsOf(e)[slot]
    decreases e, 1, 0
  {
    match e
    case Call(_, arguments, _) => AllUsesAreReads(e, arguments, 0, slot); assert arguments[0..] == arguments;
    case Syscall(arguments) => AllUsesAreReads(e, arguments, 0, slot); assert arguments[0..] == arguments;
    case Negate(left) => UsesAreReads(left, slot);
    case Concat(left, right) => UsesAreReads(left, slot); UsesAreReads(right, slot);
    case Binary(_, left, right) => UsesAreReads(left, slot); UsesAreReads(right, slot);
    case _ =>
  }

  lemma {:induction false} AllUsesAreReads(e: Expr, arguments: seq<Expr>, i: nat, slot: nat)
    requires i <= |arguments| && forall j :: 0 <= j < |arguments| ==> arguments[j] < e
    ensures ArgumentUses(e, arguments, i, slot) == ReadsOfAll(e, arguments[i..])[slot]
    decreases e, 0, |arguments| - i
  {
    if i < |arguments| {
      UsesAreReads(arguments[i], slot);
      AllUsesAreReads(e, arguments, i + 1, slot);
      assert arguments[i..][0] == arguments[i] && arguments[i..][1..] == arguments[i + 1..];
    }
  }

  // ----- tables of claimed registers -----

  /** Every register in the table is allocatable and taken, and no two are the same. */
  ghost predicate Table(file: TargetRegisterFile, taken: seq<bool>, table: seq<nat>) {
    && |taken| == MAX_TARGET_REGISTERS
    && (forall i :: 0 <= i < |table| && table[i] != file.noRegister ==>
          IsAllocatable(file, table[i]) && table[i] < MAX_TARGET_REGISTERS && taken[table[i]])
    && (forall i, j :: 0 <= i < j < |table| && table[i] != file.noRegister ==> table[i] != table[j])
  }

  ghost predicate Apart(file: TargetRegisterFile, table: seq<nat>, other: seq<nat>) {
    forall i, j :: 0 <= i < |table| && 0 <= j < |other| && table[i] != file.noRegister ==> table[i] != other[j]
  }

  /** A freshly claimed register extends a table and stays apart from every other. */
  lemma TableExtends(file: TargetRegisterFile, taken: seq<bool>, taken': seq<bool>, table: seq<nat>, i: nat, reg: nat)
    requires Table(file, taken, table) && i < |table| && table[i] == file.noRegister && |taken'| == |taken|
    requires reg == file.noRegister ==> taken' == taken
    requires reg != file.noRegister ==>
      IsAllocatable(file, reg) && reg < MAX_TARGET_REGISTERS && !taken[reg] && taken' == taken[reg := true]
    ensures Table(file, taken', table[i := reg])
  {}

  lemma TableKept(file: TargetRegisterFile, taken: seq<bool>, taken': seq<bool>, table: seq<nat>, other: seq<nat>, i: nat, reg: nat)
    requires Table(file, taken, other) && Apart(file, other, table) && i < |table| && |taken'| == |taken|
    requires reg == file.noRegister ==> taken' == taken
    requires reg != file.noRegister ==> reg < MAX_TARGET_REGISTERS && !taken[reg] && taken' == taken[reg := true]
    ensures Table(file, taken', other) && Apart(file, other, table[i := reg])
  {}

  // ----- the layout -----

  /** How many of the first k depths have no register. */
  function Spilled(file: TargetRegisterFile, table: seq<nat>, k: nat): nat
    requires k <= |table|
  {
    if k == 0 then 0 else Spilled(file, table, k - 1) + (if table[k - 1] == file.noRegister then 1 else 0)
  }

  /** The n-th of the first k depths without a register has spill slot n, and `count` slots are used. */
  ghost predicate SpillsDecided(file: TargetRegisterFile, table: seq<nat>, spill: seq<nat>, k: nat, count: nat) {
    && |spill| == |table| && k <= |table| && count == Spilled(file, table, k)
    && forall i :: 0 <= i < k && table[i] == file.noRegister ==> spill[i] == Spilled(file, table, i)
  }

  lemma {:induction false} SpilledGrows(file: TargetRegisterFile, table: seq<nat>, i: nat, k: nat)
    requires i < k <= |table|
    ensures table[i] == file.noRegister ==> Spilled(file, table, i) < Spilled(file, table, k)
    ensures Spilled(file, table, i) <= Spilled(file, table, k)
    decreases k
  {
    if i + 1 < k { SpilledGrows(file, table, i, k - 1); }
  }

  /** The taken registers of a class, in the order the class declares them. */
  function TakenOf(class_: seq<nat>, taken: seq<bool>): seq<nat>
    requires forall i :: 0 <= i < |class_| ==> class_[i] < |taken|
  {
    if class_ == [] then []
    else (if taken[class_[0]] then [class_[0]] else []) + TakenOf(class_[1..], taken)
  }

  lemma {:induction false} TakenOfHolds(class_: seq<nat>, taken: seq<bool>, r: nat)
    requires forall i :: 0 <= i < |class_| ==> class_[i] < |taken|
    ensures r in TakenOf(class_, taken) <==> r in class_ && taken[r]
  {
    if class_ != [] { TakenOfHolds(class_[1..], taken, r); }
  }

  lemma {:induction false} TakenOfDistinct(class_: seq<nat>, taken: seq<bool>, a: nat, b: nat)
    requires forall i :: 0 <= i < |class_| ==> class_[i] < |taken|
    requires forall i, j :: 0 <= i < j < |class_| ==> class_[i] != class_[j]
    requires a < b < |TakenOf(class_, taken)|
    ensures TakenOf(class_, taken)[a] != TakenOf(class_, taken)[b]
  {
    var rest := TakenOf(class_[1..], taken);
    if taken[class_[0]] {
      if a == 0 {
        TakenOfHolds(class_[1..], taken, rest[b - 1]);
      } else {
        TakenOfDistinct(class_[1..], taken, a - 1, b - 1);
      }
    } else {
      TakenOfDistinct(class_[1..], taken, a, b);
    }
  }

  lemma {:induction false} TakenOfSplit(class_: seq<nat>, taken: seq<bool>, i: nat)
    requires i < |class_| && forall j :: 0 <= j < |class_| ==> class_[j] < |taken|
    ensures TakenOf(class_[..i + 1], taken) == TakenOf(class_[..i], taken) + (if taken[class_[i]] then [class_[i]] else [])
  {
    if i == 0 {
      assert class_[..1][1..] == [] && class_[..0] == [];
    } else {
      TakenOfSplit(class_[1..], taken, i - 1);
      assert class_[..i + 1][1..] == class_[1..][..i] && class_[..i][1..] == class_[1..][..i - 1];
    }
  }

  ghost predicate SavedDecided(file: TargetRegisterFile, taken: seq<bool>, saved: seq<nat>) {
    |taken| == MAX_TARGET_REGISTERS && Declared(file) && saved == TakenOf(file.callSafe, taken)
  }

  /** The decided tables make a sound layout. */
  lemma LayoutIsSound(l: Layout, taken: seq<bool>, across: seq<bool>, count: nat)
    requires Declared(l.file) && Table(l.file, taken, l.evalRegister) && Table(l.file, taken, l.slotRegister)
    requires Apart(l.file, l.evalRegister, l.slotRegister) && Apart(l.file, l.slotRegister, l.evalRegister)
    requires |l.evalRegister| == |l.evalSpill| == l.file.Allocatable()
    requires var tracked := Min(l.evalDepth, l.file.Allocatable());
      SpillsDecided(l.file, l.evalRegister, l.evalSpill, tracked, count)
    requires l.deepSpillBase == count
    requires l.spillSlots == count + (if l.evalDepth > l.file.Allocatable() then l.evalDepth - l.file.Allocatable() else 0)
    requires SavedDecided(l.file, taken, l.saved)
    ensures Sound(l)
  {
    forall k | 0 <= k < l.evalDepth
      ensures EvalLocated(l, EvalOperand(l, k))
    {
      EvalIsLocated(l, taken, count, k);
    }
    forall s | 0 <= s < l.frameSlots
      ensures ValueLocated(l, s, ValueOperand(l, s))
    {
      ValueIsLocated(l, taken, s);
    }
    forall a, b | 0 <= a < b < |l.saved|
      ensures l.saved[a] != l.saved[b]
    {
      TakenOfDistinct(l.file.callSafe, taken, a, b);
    }
    forall a | 0 <= a < |l.saved|
      ensures l.saved[a] in l.file.callSafe
    {
      TakenOfHolds(l.file.callSafe, taken, l.saved[a]);
    }
    forall j, k | 0 <= j < k < l.evalDepth
      ensures EvalOperand(l, j) != EvalOperand(l, k)
    {
      EvalApart(l, taken, count, j, k);
    }
  }

  lemma EvalIsLocated(l: Layout, taken: seq<bool>, count: nat, k: nat)
    requires Declared(l.file) && Table(l.file, taken, l.evalRegister) && k < l.evalDepth
    requires |l.evalRegister| == |l.evalSpill| == l.file.Allocatable()
    requires var tracked := Min(l.evalDepth, l.file.Allocatable());
      SpillsDecided(l.file, l.evalRegister, l.evalSpill, tracked, count)
    requires l.deepSpillBase == count
    requires l.spillSlots == count + (if l.evalDepth > l.file.Allocatable() then l.evalDepth - l.file.Allocatable() else 0)
    requires SavedDecided(l.file, taken, l.saved)
    ensures EvalLocated(l, EvalOperand(l, k))
  {
    var o := EvalOperand(l, k);
    if o.Reg? && o.reg in l.file.callSafe {
      TakenOfHolds(l.file.callSafe, taken, o.reg);
    }
    if k < l.file.Allocatable() {
      SpilledGrows(l.file, l.evalRegister, k, Min(l.evalDepth, l.file.Allocatable()));
    }
  }

  lemma ValueIsLocated(l: Layout, taken: seq<bool>, s: nat)
    requires Declared(l.file) && Table(l.file, taken, l.slotRegister)
    requires SavedDecided(l.file, taken, l.saved)
    ensures ValueLocated(l, s, ValueOperand(l, s))
  {
    var o := ValueOperand(l, s);
    if o.Reg? && o.reg in l.file.callSafe {
      TakenOfHolds(l.file.callSafe, taken, o.reg);
    }
  }

  lemma EvalApart(l: Layout, taken: seq<bool>, count: nat, j: nat, k: nat)
    requires j < k < l.evalDepth && Table(l.file, taken, l.evalRegister)
    requires |l.evalRegister| == |l.evalSpill| == l.file.Allocatable()
    requires var tracked := Min(l.evalDepth, l.file.Allocatable());
      SpillsDecided(l.file, l.evalRegister, l.evalSpill, tracked, count)
    requires l.deepSpillBase == count
    ensures EvalOperand(l, j) != EvalOperand(l, k)
  {
    var tracked := Min(l.evalDepth, l.file.Allocatable());
    if j < tracked { SpilledGrows(l.file, l.evalRegister, j, Min(k, tracked)); }
  }

  // ----- the passes of the layout -----

  /** Runs the liveness analysis over every statement. */
  method PressureOf(f: Function, ghost functions: seq<Function>) returns (depth: nat, across: seq<bool>)
    requires WellFormedFunction(functions, f)
    ensures depth == BodyNeed(f.body, 0) && |across| == MAX_TRACKED_DEPTH
    ensures forall k :: 0 <= k < MAX_TRACKED_DEPTH ==> across[k] == BodyCrosses(f.body, 0, k)
  {
    var pressure := new FunctionPressure();
    var i := 0;
    while i < |f.body|
      invariant 0 <= i <= |f.body| && pressure.Valid()
      invariant fresh(pressure) && fresh(pressure.acrossCall)
      invariant Max(pressure.depth, BodyNeed(f.body, i)) == BodyNeed(f.body, 0)
      invariant forall k :: 0 <= k < MAX_TRACKED_DEPTH ==>
        (pressure.acrossCall[k] || BodyCrosses(f.body, i, k)) == BodyCrosses(f.body, 0, k)
    {
      var s := f.body[i];
      assert WellFormedStmt(functions, f.FrameSlots(), s);
      if s.IfReturn? {
        pressure.Expression(s.condition, 0, functions, f.FrameSlots());
      }
      pressure.Expression(s.value, 0, functions, f.FrameSlots());
      i := i + 1;
    }
    return pressure.depth, pressure.acrossCall[..];
  }

  /** One sweep over the depths, serving those that cross calls or those that do not. */
  method ClaimDepths(file: RegisterFile, across: seq<bool>, tracked: nat, crossing: bool, table: seq<nat>) returns (result: seq<nat>)
    requires file.Valid() && tracked <= |table| == file.target.Allocatable() && |across| == MAX_TRACKED_DEPTH
    requires Table(file.target, file.taken[..], table)
    requires UsedUp(file.target, file.taken[..],
      ScratchUsed(file.target, across, crossing, 0), CallSafeUsed(file.target, across, tracked, crossing, 0))
    requires forall k :: 0 <= k < |table| && (k >= tracked || across[k] == crossing) ==> table[k] == file.target.noRegister
    modifies file.taken
    ensures |result| == |table| && Table(file.target, file.taken[..], result)
    ensures UsedUp(file.target, file.taken[..],
      ScratchUsed(file.target, across, crossing, tracked), CallSafeUsed(file.target, across, tracked, crossing, tracked))
    ensures forall k :: 0 <= k < |table| ==>
      result[k] == if k < tracked && across[k] == crossing then DepthRegister(file.target, across, tracked, k) else table[k]
  {
    hide UsedUp, DepthRegister, ScratchUsed, CallSafeUsed, DepthServed, Crossings;
    result := table;
    var d := 0;
    while d < tracked
      invariant 0 <= d <= tracked && |result| == |table|
      invariant Table(file.target, file.taken[..], result)
      invariant UsedUp(file.target, file.taken[..],
        ScratchUsed(file.target, across, crossing, d), CallSafeUsed(file.target, across, tracked, crossing, d))
      invariant forall k :: 0 <= k < |table| ==>
        result[k] == if k < d && across[k] == crossing then DepthRegister(file.target, across, tracked, k) else table[k]
    {
      if across[d] == crossing {
        ghost var before := file.taken[..];
        var reg := file.TakeEval(crossing);
        if reg != file.target.noRegister { ServedFromFile(file.target, before, crossing, reg); }
        TableExtends(file.target, before, file.taken[..], result, d, reg);
        ServedInTurn(file.target, across, tracked, d, before, file.taken[..], reg);
        result := result[d := reg];
      } else {
        SweepSkips(file.target, across, tracked, d);
      }
      d := d + 1;
    }
  }

  /** The depths that cross calls are served before any other: every depth gets its register of the closed form. */
  method AssignDepths(file: RegisterFile, across: seq<bool>, depth: nat) returns (table: seq<nat>)
    requires file.Valid() && |across| == MAX_TRACKED_DEPTH
    requires forall r :: 0 <= r < MAX_TARGET_REGISTERS ==> !file.taken[r]
    modifies file.taken
    ensures |table| == file.target.Allocatable() && Table(file.target, file.taken[..], table)
    ensures var tracked := Min(depth, file.target.Allocatable());
      forall k :: 0 <= k < |table| ==>
        table[k] == if k < tracked then DepthRegister(file.target, across, tracked, k) else file.target.noRegister
    ensures forall k :: 0 <= k < |table| && across[k] && table[k] != file.target.noRegister ==> table[k] in file.target.callSafe
    ensures forall k :: 0 <= k < |table| && k < depth && table[k] == file.target.noRegister ==>
      across[k] && Exhausted(file.target.callSafe, file.taken[..])
  {
    var allocatable := file.target.Allocatable();
    var tracked := Min(depth, allocatable);
    table := seq(allocatable, _ => file.target.noRegister);
    table := ClaimDepths(file, across, tracked, true, table);
    table := ClaimDepths(file, across, tracked, false, table);
    forall k | 0 <= k < |table| && k < depth && table[k] == file.target.noRegister
      ensures across[k] && Exhausted(file.target.callSafe, file.taken[..])
    {
      OnlyCrossingSpill(file.target, across, tracked, k);
      CrossingsMono(across, k, tracked);
    }
  }

  /** Bindings take what is left, and never displace a depth. */
  method AssignSlots(file: RegisterFile, f: Function, evalRegister: seq<nat>) returns (table: seq<nat>)
    requires file.Valid() && Table(file.target, file.taken[..], evalRegister) && f.FrameSlots() <= MAX_FRAME_SLOTS
    modifies file.taken
    ensures |table| == MAX_FRAME_SLOTS
    ensures Table(file.target, file.taken[..], evalRegister) && Table(file.target, file.taken[..], table)
    ensures Apart(file.target, evalRegister, table) && Apart(file.target, table, evalRegister)
    ensures BodyCalls(f.body, 0) ==> forall s :: 0 <= s < |table| && table[s] != file.target.noRegister ==> table[s] in file.target.callSafe
    ensures forall s :: 0 <= s < f.FrameSlots() && BodyUses(f.body, 0, s) == 0 ==> table[s] == file.target.noRegister
    ensures Exhausted(file.target.callSafe, old(file.taken[..])) ==> Exhausted(file.target.callSafe, file.taken[..])
  {
    var calls := BodyCalls(f.body, 0);
    var no := file.target.noRegister;
    table := seq(MAX_FRAME_SLOTS, _ => no);
    var s := 0;
    while s < f.FrameSlots()
      invariant 0 <= s <= f.FrameSlots() && |table| == MAX_FRAME_SLOTS
      invariant forall i :: s <= i < |table| ==> table[i] == no
      invariant Table(file.target, file.taken[..], evalRegister) && Table(file.target, file.taken[..], table)
      invariant Apart(file.target, evalRegister, table) && Apart(file.target, table, evalRegister)
      invariant calls ==> forall i :: 0 <= i < |table| && table[i] != no ==> table[i] in file.target.callSafe
      invariant forall i :: 0 <= i < s && BodyUses(f.body, 0, i) == 0 ==> table[i] == no
      invariant Exhausted(file.target.callSafe, old(file.taken[..])) ==> Exhausted(file.target.callSafe, file.taken[..])
    {
      ghost var before := file.taken[..];
      var reg := file.TakeValue(calls, BodyUses(f.body, 0, s));
      if reg != no { ServedFromFile(file.target, before, calls, reg); }
      SlotExtends(file.target, before, file.taken[..], evalRegister, table, s, reg);
      table := table[s := reg];
      s := s + 1;
    }
  }

  lemma SlotExtends(file: TargetRegisterFile, taken: seq<bool>, taken': seq<bool>, evals: seq<nat>, table: seq<nat>, s: nat, reg: nat)
    requires Table(file, taken, evals) && Table(file, taken, table) && s < |table| && table[s] == file.noRegister
    requires Apart(file, evals, table) && Apart(file, table, evals) && |taken'| == |taken|
    requires reg == file.noRegister ==> taken' == taken
    requires reg != file.noRegister ==>
      IsAllocatable(file, reg) && reg < MAX_TARGET_REGISTERS && !taken[reg] && taken' == taken[reg := true]
    ensures Table(file, taken', evals) && Table(file, taken', table[s := reg])
    ensures Apart(file, evals, table[s := reg]) && Apart(file, table[s := reg], evals)
  {
    TableExtends(file, taken, taken', table, s, reg);
    TableKept(file, taken, taken', table, evals, s, reg);
  }

  /** Gives the depths without a register their frame slots. */
  method SpillDepths(file: TargetRegisterFile, table: seq<nat>, tracked: nat) returns (spill: seq<nat>, count: nat)
    requires tracked <= |table|
    ensures SpillsDecided(file, table, spill, tracked, count)
  {
    spill := seq(|table|, _ => 0);
    count := 0;
    var d := 0;
    while d < tracked
      invariant 0 <= d <= tracked && SpillsDecided(file, table, spill, d, count)
    {
      if table[d] == file.noRegister {
        spill := spill[d := count];
        count := count + 1;
      }
      d := d + 1;
    }
  }

  /** The registers the prologue has to save. */
  method SavedRegisters(file: RegisterFile) returns (saved: seq<nat>)
    requires file.Valid()
    ensures SavedDecided(file.target, file.taken[..], saved)
  {
    saved := [];
    ghost var taken := file.taken[..];
    var callSafe := file.target.callSafe;
    var i := 0;
    while i < |callSafe|
      invariant 0 <= i <= |callSafe| && saved == TakenOf(callSafe[..i], taken)
    {
      TakenOfSplit(callSafe, taken, i);
      if file.taken[callSafe[i]] {
        saved := saved + [callSafe[i]];
      }
      i := i + 1;
    }
    assert callSafe[..i] == callSafe;
  }

  /**
   The location assignment of one function: sound for any declared register
   file, with every depth that holds a value across a call, and every binding
   of a body that calls, where a call preserves it.
   */
  method FunctionLayout(target: TargetRegisterFile, f: Function, ghost functions: seq<Function>) returns (l: Layout)
    requires Declared(target) && WellFormedFunction(functions, f)
    ensures l.file == target && l.frameSlots == f.FrameSlots() && l.evalDepth == BodyNeed(f.body, 0) && Sound(l)
    ensures forall k: nat :: k < l.evalDepth && BodyCrosses(f.body, 0, k) ==> CallSafe(l, EvalOperand(l, k))
    ensures forall k: nat :: k < l.evalDepth && k < target.Allocatable() && EvalOperand(l, k).Slot? ==> BodyCrosses(f.body, 0, k)
    ensures BodyCalls(f.body, 0) ==> BindingsSafe(l)
    ensures forall s :: 0 <= s < l.frameSlots && BodyUses(f.body, 0, s) == 0 ==> ValueOperand(l, s) == Slot(s)
    ensures (exists k :: 0 <= k < l.evalDepth && k < target.Allocatable() && EvalOperand(l, k).Slot?) ==>
      forall i :: 0 <= i < |target.callSafe| ==> target.callSafe[i] in l.saved
  {
    hide Crossings, DepthRegister, Spilled, TakenOf, SpillsDecided, Sound, BodyNeed, BodyUses, BodyCalls, BodyCrosses;
    var depth, across := PressureOf(f, functions);
    var file := new RegisterFile(target);
    var evalRegister := AssignDepths(file, across, depth);
    var slotRegister := AssignSlots(file, f, evalRegister);
    var allocatable := target.Allocatable();
    var tracked := Min(depth, allocatable);
    var evalSpill, count := SpillDepths(target, evalRegister, tracked);
    var spillSlots := count + (if depth > allocatable then depth - allocatable else 0);
    var saved := SavedRegisters(file);
    l := Layout(target, f.FrameSlots(), spillSlots, depth, evalRegister, evalSpill, count, slotRegister, saved);
    LayoutIsSound(l, file.taken[..], across, count);
    if exists k :: 0 <= k < l.evalDepth && k < target.Allocatable() && EvalOperand(l, k).Slot? {
      forall i | 0 <= i < |target.callSafe| ensures target.callSafe[i] in l.saved {
        TakenOfHolds(target.callSafe, file.taken[..], target.callSafe[i]);
      }
    }
  }

  /** Both targets declare register files the allocator accepts. */
  lemma TargetsDeclared(t: Target)
    ensures Declared(FileOf(t))
  {
    match t
    case X64 => X64Declared();
    case A64 => A64Declared();
  }

  lemma X64Declared()
    ensures Declared(X64_FILE)
  {}

  lemma A64Declared()
    ensures Declared(A64_FILE)
  {
    var file := A64_FILE;
    assert forall i :: 0 <= i < |file.scratch| ==> file.scratch[i] == 12 + i;
    assert forall i :: 0 <= i < |file.callSafe| ==> file.callSafe[i] == 19 + i;
  }

  /** The layout of a function is one its code may be built with. */
  method LayoutForTarget(t: Target, f: Function, ghost functions: seq<Function>) returns (l: Layout)
    requires WellFormedFunction(functions, f)
    ensures LayoutFor(t, f, l)
  {
    TargetsDeclared(t);
    l := FunctionLayout(FileOf(t), f, functions);
  }
}
