/** Fixups: the branch sites an emitter records while it appends text, and the loops that resolve them. */
module Linking {
  import opened Buffers
  import opened Patching
  import opened Targets
  import opened BranchDecoding

  const TRAP_COUNT: nat := 7

  datatype Callee = Function(index: nat) | PrintInt | PrintText | Trap(kind: nat)

  datatype Site = Site(field: nat, callee: Callee)

  /** Where everything a site can lead to was emitted. */
  datatype Addresses = Addresses(functions: seq<nat>, printInt: nat, printText: nat, traps: seq<nat>)

  predicate Resolves(a: Addresses, callee: Callee) {
    match callee
    case Function(i) => i < |a.functions|
    case Trap(kind) => kind < |a.traps|
    case _ => true
  }

  function AddressOf(a: Addresses, callee: Callee): nat
    requires Resolves(a, callee)
  {
    match callee
    case Function(i) => a.functions[i]
    case PrintInt => a.printInt
    case PrintText => a.printText
    case Trap(kind) => a.traps[kind]
  }

  /** x86-64 branches carry rel32 fields; AArch64 calls with `bl` and traps with conditional branches. */
  function FormOf(m: Target, callee: Callee): Form {
    if m.X64? then Rel32 else if callee.Trap? then Imm19 else Imm26
  }

  /** How many opcode bytes stand before the field of a branch to the callee. */
  function Opening(m: Target, callee: Callee): nat {
    if m.A64? then 0 else if callee.Trap? then 2 else 1
  }

  predicate InText(m: Target, data: seq<Octet>, s: Site) {
    Opening(m, s.callee) <= s.field && s.field + 4 <= |data|
  }

  /** The instruction the bytes at a site are. */
  function BranchAt(m: Target, data: seq<Octet>, s: Site): Branch
    requires InText(m, data, s)
  {
    Decode(m, data, s.field - Opening(m, s.callee))
  }

  /** Functions are called or jumped to, print routines called, traps jumped to on a condition. */
  predicate Suits(b: Branch, callee: Callee) {
    match callee
    case Function(_) => b.CallTo? || b.JumpTo?
    case PrintInt => b.CallTo?
    case PrintText => b.CallTo?
    case Trap(_) => b.JumpIf? || b.JumpIfZero?
  }

  /** A branch that suits the callee stands at the site. */
  predicate Stands(m: Target, data: seq<Octet>, s: Site) {
    InText(m, data, s) && Suits(BranchAt(m, data, s), s.callee)
  }

  /** No byte belongs to both branches. */
  predicate Apart(m: Target, s: Site, s': Site) {
    s.field + 4 + Opening(m, s'.callee) <= s'.field || s'.field + 4 + Opening(m, s.callee) <= s.field
  }

  /** The site's own bytes are a branch to its callee's address. */
  predicate Linked(m: Target, a: Addresses, data: seq<Octet>, s: Site) {
    && Resolves(a, s.callee) && Stands(m, data, s)
    && BranchAt(m, data, s).target == AddressOf(a, s.callee)
  }

  /** How far a branch goes: two gigabytes either way, and on AArch64 whole words, a conditional branch one megabyte, any other 128. */
  lemma ReachMeans(m: Target, a: Addresses, s: Site)
    requires Resolves(a, s.callee)
    ensures var distance := AddressOf(a, s.callee) - s.field;
      Reachable(m, a, s) <==>
        if m.X64? then -0x8000_0000 <= distance - 4 < 0x8000_0000
        else distance % 4 == 0 && if s.callee.Trap? then -0x10_0000 <= distance < 0x10_0000 else -0x800_0000 <= distance < 0x800_0000
  {}

  /** What a patch in the form of its callee does to the branch that stands there. */
  lemma PatchAims(m: Target, before: seq<Octet>, after: seq<Octet>, s: Site, target: nat)
    requires Stands(m, before, s) && SameBytesOutside(before, after, s.field)
    requires Around(FormOf(m, s.callee), WordAt(after, s.field)) == Around(FormOf(m, s.callee), WordAt(before, s.field))
    requires Destination(after, FormOf(m, s.callee), s.field) == target
    ensures Stands(m, after, s) && SameKind(BranchAt(m, before, s), BranchAt(m, after, s)) && BranchAt(m, after, s).target == target
  {
    hide Quad, WordAt;
    if m.X64? {
      DisplacementAims(before, after, s, target);
    } else if s.callee.Trap? {
      WordsAreQuads(before, after, s.field);
      NearAims(WordAt(before, s.field), WordAt(after, s.field));
    } else {
      WordsAreQuads(before, after, s.field);
      FarAims(WordAt(before, s.field), WordAt(after, s.field));
    }
  }

  lemma WordsAreQuads(before: seq<Octet>, after: seq<Octet>, field: nat)
    requires field + 4 <= |before| && field + 4 <= |after|
    ensures Quad(before, field) == WordAt(before, field) && Quad(after, field) == WordAt(after, field)
  {}

  lemma DisplacementAims(before: seq<Octet>, after: seq<Octet>, s: Site, target: nat)
    requires Stands(X64, before, s) && SameBytesOutside(before, after, s.field)
    requires Destination(after, Rel32, s.field) == target
    ensures Stands(X64, after, s) && SameKind(BranchAt(X64, before, s), BranchAt(X64, after, s)) && BranchAt(X64, after, s).target == target
  {
    hide Quad, WordAt;
    assert Quad(after, s.field) == WordAt(after, s.field) by { WordsAreQuads(after, after, s.field); }
    var at := s.field - Opening(X64, s.callee);
    assert after[at] == before[at] && (s.callee.Trap? ==> after[at + 1] == before[at + 1]);
  }

  /** What surrounds the nearer immediate fixes the opcode and the condition or register. */
  lemma NearAims(word: nat, word': nat)
    requires Around(Imm19, word) == Around(Imm19, word')
    ensures word / 0x100_0000 == word' / 0x100_0000 && word % 0x20 == word' % 0x20
    ensures Field(Imm19, word') == word' / 0x20 % 0x8_0000
  {}

  lemma FarAims(word: nat, word': nat)
    requires Around(Imm26, word) == Around(Imm26, word')
    ensures word / 0x400_0000 == word' / 0x400_0000
  {}

  /** And to one that stands apart. */
  lemma PatchSpares(m: Target, before: seq<Octet>, after: seq<Octet>, patched: Site, s: Site)
    requires SameBytesOutside(before, after, patched.field) && Apart(m, s, patched)
    requires InText(m, before, s) && InText(m, before, patched)
    ensures BranchAt(m, after, s) == BranchAt(m, before, s)
  {}

  predicate Reachable(m: Target, a: Addresses, s: Site)
    requires Resolves(a, s.callee)
  {
    InReach(FormOf(m, s.callee), s.field, AddressOf(a, s.callee))
  }

  /** Patching one site leaves a site apart from it, or the same site, linked. */
  lemma PatchKeepsLinks(m: Target, a: Addresses, before: seq<Octet>, after: seq<Octet>, patched: Site, s: Site)
    requires SameBytesOutside(before, after, patched.field) && Stands(m, before, patched) && Linked(m, a, after, patched)
    requires Linked(m, a, before, s) && (s == patched || Apart(m, s, patched))
    ensures Linked(m, a, after, s)
  {
    hide Decode;
    if s != patched { PatchSpares(m, before, after, patched, s); }
  }

  lemma StandsBefore(m: Target, data: seq<Octet>, more: seq<Octet>, s: Site)
    requires Stands(m, data, s)
    ensures Stands(m, data + more, s) && BranchAt(m, data + more, s) == BranchAt(m, data, s)
  {
    DecodeBehind(m, data, more, s.field - Opening(m, s.callee));
    hide Decode;
  }

  /** A branch appended stands where it was appended. */
  lemma AppendedStands(m: Target, data: seq<Octet>, opcode: seq<Octet>, field: seq<Octet>, callee: Callee)
    requires |opcode| == Opening(m, callee) && |field| == 4 && Suits(Decode(m, opcode + field, 0), callee)
    ensures Stands(m, data + opcode + field, Site(|data| + |opcode|, callee))
  {
    DecodeBefore(m, data, opcode + field, 0);
    assert data + opcode + field == data + (opcode + field);
    hide Decode;
  }

  class Linker {
    const machine: Target
    const text: Bytes
    var calls: seq<Site>
    var printIntCalls: seq<nat>
    var printTextCalls: seq<nat>
    var trapJumps: seq<seq<nat>>

    constructor (machine: Target)
      ensures Valid() && this.machine == machine && fresh(text) && text.data == []
      ensures forall s :: !Recorded(s)
    {
      this.machine := machine;
      text := new Bytes();
      calls, printIntCalls, printTextCalls := [], [], [];
      trapJumps := seq(TRAP_COUNT, _ => []);
    }

    /** The site is on the list of its kind. */
    predicate Recorded(s: Site)
      reads this
    {
      match s.callee
      case Function(_) => s in calls
      case PrintInt => s.field in printIntCalls
      case PrintText => s.field in printTextCalls
      case Trap(kind) => kind < |trapJumps| && s.field in trapJumps[kind]
    }

    /** At every recorded site a branch stands that suits its callee, and no two overlap. */
    ghost predicate Valid()
      reads this, text
    {
      && |trapJumps| == TRAP_COUNT
      && (forall s :: s in calls ==> s.callee.Function?)
      && (forall s :: Recorded(s) ==> Stands(machine, text.data, s))
      && (forall s, s' :: Recorded(s) && Recorded(s') && s != s' ==> Apart(machine, s, s'))
    }

    /** Text without branch sites. */
    method Append(bytes: seq<Octet>)
      requires Valid()
      modifies text
      ensures Valid() && text.data == old(text.data) + bytes
    {
      var index := 0;
      while index < |bytes|
        invariant 0 <= index <= |bytes| && text.data == old(text.data) + bytes[..index]
      {
        text.Byte(bytes[index]);
        index := index + 1;
      }
      assert bytes[..index] == bytes;
      forall s | Recorded(s) ensures Stands(machine, text.data, s) { StandsBefore(machine, old(text.data), bytes, s); }
    }

    /** Puts a field on the list of its kind. */
    method Record(at: nat, callee: Callee)
      requires |trapJumps| == TRAP_COUNT && (callee.Trap? ==> callee.kind < TRAP_COUNT)
      requires forall s :: s in calls ==> s.callee.Function?
      modifies this
      ensures |trapJumps| == TRAP_COUNT
      ensures forall s :: s in calls ==> s.callee.Function?
      ensures forall s :: Recorded(s) <==> old(Recorded(s)) || s == Site(at, callee)
    {
      match callee {
        case Function(_) => calls := calls + [Site(at, callee)];
        case PrintInt => printIntCalls := printIntCalls + [at];
        case PrintText => printTextCalls := printTextCalls + [at];
        case Trap(kind) => trapJumps := trapJumps[kind := trapJumps[kind] + [at]];
      }
    }

    /** Emits a branch that suits its callee: its opcode bytes, and a four-byte field recorded for the callee. */
    method Branch(opcode: seq<Octet>, field: nat, callee: Callee)
      requires Valid() && field < 0x1_0000_0000 && (callee.Trap? ==> callee.kind < TRAP_COUNT)
      requires |opcode| == Opening(machine, callee) && Suits(Decode(machine, opcode + LittleEndian(field, 4), 0), callee)
      modifies this, text
      ensures Valid() && text.data == old(text.data) + opcode + LittleEndian(field, 4)
      ensures forall s :: Recorded(s) <==> old(Recorded(s)) || s == Site(|old(text.data)| + |opcode|, callee)
    {
      hide Recorded, LittleEndian, BranchAt, Suits, Decode;
      ghost var before := text.data;
      ghost var added := Site(|before| + |opcode|, callee);
      assert forall s :: Recorded(s) ==> s.field + 4 <= |before|;
      Append(opcode);
      ghost var grown := text.data;
      Record(|text.data|, callee);
      text.U32(field);
      AppendedStands(machine, before, opcode, LittleEndian(field, 4), callee);
      forall s | Recorded(s) ensures Stands(machine, text.data, s) {
        if s != added { StandsBefore(machine, grown, LittleEndian(field, 4), s); }
      }
      forall s, s' | Recorded(s) && Recorded(s') && s != s' ensures Apart(machine, s, s') {}
    }

    /** Only recorded fields changed, and within them only the branch immediates. */
    ghost predicate OnlyTargets(before: seq<Octet>, after: seq<Octet>)
      reads this
    {
      && |after| == |before|
      && (forall i :: 0 <= i < |before| && after[i] != before[i] ==> exists s :: Recorded(s) && s.field <= i < s.field + 4)
      && (forall s :: Recorded(s) && s.field + 4 <= |before| ==>
            Around(FormOf(machine, s.callee), WordAt(after, s.field)) == Around(FormOf(machine, s.callee), WordAt(before, s.field)))
      && (forall s :: Recorded(s) && InText(machine, before, s) ==>
            SameKind(BranchAt(machine, before, s), BranchAt(machine, after, s)))
    }

    /** Whatever led to its callee still does. */
    ghost predicate KeepsLinks(a: Addresses, before: seq<Octet>, after: seq<Octet>)
      reads this
    {
      forall o :: Recorded(o) && Linked(machine, a, before, o) ==> Linked(machine, a, after, o)
    }

    /** Resolves one recorded site; whatever else was linked stays linked. */
    method LinkSite(a: Addresses, s: Site) returns (ok: bool)
      requires Valid() && Recorded(s) && Resolves(a, s.callee)
      modifies text
      ensures Valid() && ok == Reachable(machine, a, s)
      ensures ok ==> Linked(machine, a, text.data, s)
      ensures ok ==> KeepsLinks(a, old(text.data), text.data) && OnlyTargets(old(text.data), text.data)
    {
      hide Destination, Around, WordAt, Decode;
      ghost var before := text.data;
      ok := PatchBranch(text, FormOf(machine, s.callee), s.field, AddressOf(a, s.callee));
      if ok {
        PatchAims(machine, before, text.data, s, AddressOf(a, s.callee));
        forall o | Recorded(o) && o != s ensures Stands(machine, text.data, o) { PatchSpares(machine, before, text.data, s, o); }
        forall o | Recorded(o) && Linked(machine, a, before, o)
          ensures Linked(machine, a, text.data, o)
        {
          PatchKeepsLinks(machine, a, before, text.data, s, o);
        }
        PatchTouchesTargets(before, s);
      }
    }

    lemma PatchTouchesTargets(before: seq<Octet>, s: Site)
      requires Valid() && Recorded(s) && SameBytesOutside(before, text.data, s.field)
      requires forall o :: Recorded(o) ==> Stands(machine, before, o)
      requires SameKind(BranchAt(machine, before, s), BranchAt(machine, text.data, s))
      requires Around(FormOf(machine, s.callee), WordAt(text.data, s.field)) == Around(FormOf(machine, s.callee), WordAt(before, s.field))
      ensures OnlyTargets(before, text.data)
    {
      hide Around, WordAt, Destination, Recorded, Decode;
      forall o | Recorded(o)
        ensures Around(FormOf(machine, o.callee), WordAt(text.data, o.field)) == Around(FormOf(machine, o.callee), WordAt(before, o.field))
        ensures SameKind(BranchAt(machine, before, o), BranchAt(machine, text.data, o))
      {
        if o != s {
          DestinationFrame(before, text.data, FormOf(machine, o.callee), o.field, s.field);
          PatchSpares(machine, before, text.data, s, o);
        }
      }
    }

    /** Every recorded site for a callee can reach it. */
    ghost predicate CanReach(a: Addresses, callee: Callee)
      requires Resolves(a, callee)
      reads this
    {
      forall s :: Recorded(s) && s.callee == callee ==> Reachable(machine, a, s)
    }

    /** Every recorded site for a callee leads to it. */
    ghost predicate Leads(a: Addresses, data: seq<Octet>, callee: Callee)
      reads this
    {
      forall s :: Recorded(s) && s.callee == callee ==> Linked(machine, a, data, s)
    }

    lemma LeadsKept(a: Addresses, before: seq<Octet>, after: seq<Octet>, callee: Callee)
      requires Leads(a, before, callee) && KeepsLinks(a, before, after)
      ensures Leads(a, after, callee)
    {
      hide Recorded, Linked;
    }

    lemma LinkKept(a: Addresses, before: seq<Octet>, after: seq<Octet>, s: Site)
      requires Recorded(s) && Linked(machine, a, before, s) && KeepsLinks(a, before, after)
      ensures Linked(machine, a, after, s)
    {
    }

    lemma NothingPatched(a: Addresses, data: seq<Octet>)
      ensures KeepsLinks(a, data, data) && OnlyTargets(data, data)
    {
    }

    lemma KeepsLinksChain(a: Addresses, first: seq<Octet>, second: seq<Octet>, third: seq<Octet>)
      requires KeepsLinks(a, first, second) && OnlyTargets(first, second)
      requires KeepsLinks(a, second, third) && OnlyTargets(second, third)
      ensures KeepsLinks(a, first, third) && OnlyTargets(first, third)
    {
      hide Recorded, Linked, Around, WordAt;
    }

    /** Resolves every field on the list of one callee. */
    method LinkFields(a: Addresses, fields: seq<nat>, callee: Callee) returns (ok: bool)
      requires Valid() && Resolves(a, callee)
      requires forall s: Site :: s.callee == callee ==> (Recorded(s) <==> s.field in fields)
      modifies text
      ensures Valid()
      ensures ok <==> CanReach(a, callee)
      ensures ok ==> Leads(a, text.data, callee)
      ensures ok ==> KeepsLinks(a, old(text.data), text.data) && OnlyTargets(old(text.data), text.data)
    {
      NothingPatched(a, text.data);
      assert FieldsLead(a, text.data, fields, callee, 0);
      hide Recorded, Linked, Reachable, Resolves, Valid, KeepsLinks, OnlyTargets, FieldsLead;
      var index := 0;
      while index < |fields|
        invariant 0 <= index <= |fields| && Valid() && FieldsLead(a, text.data, fields, callee, index)
        invariant KeepsLinks(a, old(text.data), text.data) && OnlyTargets(old(text.data), text.data)
      {
        ghost var before := text.data;
        var s := Site(fields[index], callee);
        assert s.field in fields && s.callee == callee;
        ok := LinkSite(a, s);
        if !ok { return; }
        KeepsLinksChain(a, old(text.data), before, text.data);
        OneMoreField(a, before, text.data, fields, callee, index);
        index := index + 1;
      }
      ok := true;
      FieldsAreAll(a, text.data, fields, callee);
    }

    /** The first fields on a callee's list can reach it, and lead to it. */
    ghost predicate FieldsLead(a: Addresses, data: seq<Octet>, fields: seq<nat>, callee: Callee, bound: nat)
      requires bound <= |fields| && Resolves(a, callee)
      reads this
    {
      forall k :: 0 <= k < bound ==> Reachable(machine, a, Site(fields[k], callee)) && Linked(machine, a, data, Site(fields[k], callee))
    }

    lemma OneMoreField(a: Addresses, before: seq<Octet>, after: seq<Octet>, fields: seq<nat>, callee: Callee, index: nat)
      requires index < |fields| && Resolves(a, callee) && FieldsLead(a, before, fields, callee, index) && KeepsLinks(a, before, after)
      requires forall s: Site :: s.callee == callee ==> (Recorded(s) <==> s.field in fields)
      requires Reachable(machine, a, Site(fields[index], callee)) && Linked(machine, a, after, Site(fields[index], callee))
      ensures FieldsLead(a, after, fields, callee, index + 1)
    {
      hide Recorded, Linked, Reachable, Resolves;
      forall k | 0 <= k < index ensures Linked(machine, a, after, Site(fields[k], callee)) {
        var s := Site(fields[k], callee);
        assert s.callee == callee && s.field in fields;
        LinkKept(a, before, after, s);
      }
    }

    lemma FieldsAreAll(a: Addresses, data: seq<Octet>, fields: seq<nat>, callee: Callee)
      requires Resolves(a, callee) && FieldsLead(a, data, fields, callee, |fields|)
      requires forall s: Site :: s.callee == callee ==> (Recorded(s) <==> s.field in fields)
      ensures CanReach(a, callee) && Leads(a, data, callee)
    {
      hide Recorded, Linked, Reachable, Resolves;
      forall s | Recorded(s) && s.callee == callee ensures Reachable(machine, a, s) && Linked(machine, a, data, s) {
        var k :| 0 <= k < |fields| && fields[k] == s.field;
        assert s == Site(fields[k], callee);
      }
    }

    /** The first calls on the list can reach their functions, and lead to them. */
    ghost predicate CallsLead(a: Addresses, data: seq<Octet>, bound: nat)
      requires bound <= |calls|
      reads this
    {
      forall k :: 0 <= k < bound ==> Resolves(a, calls[k].callee) && Reachable(machine, a, calls[k]) && Linked(machine, a, data, calls[k])
    }

    lemma OneMoreCall(a: Addresses, before: seq<Octet>, after: seq<Octet>, index: nat)
      requires Valid() && index < |calls| && CallsLead(a, before, index) && KeepsLinks(a, before, after)
      requires Resolves(a, calls[index].callee) && Reachable(machine, a, calls[index]) && Linked(machine, a, after, calls[index])
      ensures CallsLead(a, after, index + 1)
    {
      hide Linked, Reachable, Resolves, Recorded;
      forall k | 0 <= k < index ensures Linked(machine, a, after, calls[k]) {
        CallRecorded(k);
        LinkKept(a, before, after, calls[k]);
      }
    }

    lemma CallRecorded(k: nat)
      requires Valid() && k < |calls|
      ensures Recorded(calls[k])
    {
      assert calls[k] in calls;
    }

    method LinkCall(a: Addresses, index: nat) returns (ok: bool)
      requires Valid() && index < |calls| && Resolves(a, calls[index].callee) && CallsLead(a, text.data, index)
      modifies text
      ensures Valid() && ok == Reachable(machine, a, calls[index])
      ensures ok ==> CallsLead(a, text.data, index + 1)
      ensures ok ==> KeepsLinks(a, old(text.data), text.data) && OnlyTargets(old(text.data), text.data)
    {
      hide Recorded, Linked, Reachable, Resolves, Valid, KeepsLinks, OnlyTargets, CallsLead;
      ghost var before := text.data;
      CallRecorded(index);
      ok := LinkSite(a, calls[index]);
      if ok { OneMoreCall(a, before, text.data, index); }
    }

    /** Resolves every call of a declared function. */
    method LinkCalls(a: Addresses) returns (ok: bool)
      requires Valid() && forall k :: 0 <= k < |calls| ==> Resolves(a, calls[k].callee)
      modifies text
      ensures Valid()
      ensures ok ==> CallsLead(a, text.data, |calls|)
      ensures !ok ==> exists k :: 0 <= k < |calls| && !Reachable(machine, a, calls[k])
      ensures ok ==> KeepsLinks(a, old(text.data), text.data) && OnlyTargets(old(text.data), text.data)
    {
      NothingPatched(a, text.data);
      assert CallsLead(a, text.data, 0);
      hide Recorded, Linked, Reachable, Resolves, Valid, KeepsLinks, OnlyTargets, CallsLead;
      var index := 0;
      while index < |calls|
        invariant 0 <= index <= |calls| && Valid() && CallsLead(a, text.data, index)
        invariant KeepsLinks(a, old(text.data), text.data) && OnlyTargets(old(text.data), text.data)
      {
        ghost var before := text.data;
        ok := LinkCall(a, index);
        if !ok { return; }
        KeepsLinksChain(a, old(text.data), before, text.data);
        index := index + 1;
      }
      ok := true;
    }

    /** Resolves the trap jumps, kind by kind. */
    method LinkTraps(a: Addresses) returns (ok: bool)
      requires Valid() && |a.traps| == TRAP_COUNT
      modifies text
      ensures Valid()
      ensures ok <==> forall kind: nat :: kind < TRAP_COUNT ==> CanReach(a, Trap(kind))
      ensures ok ==> forall kind: nat :: kind < TRAP_COUNT ==> Leads(a, text.data, Trap(kind))
      ensures ok ==> KeepsLinks(a, old(text.data), text.data) && OnlyTargets(old(text.data), text.data)
    {
      hide Linked, Reachable, Around, WordAt, Leads, CanReach;
      var kind := 0;
      while kind < TRAP_COUNT
        invariant 0 <= kind <= TRAP_COUNT && Valid()
        invariant forall k: nat :: k < kind ==> CanReach(a, Trap(k)) && Leads(a, text.data, Trap(k))
        invariant KeepsLinks(a, old(text.data), text.data) && OnlyTargets(old(text.data), text.data)
      {
        ghost var before := text.data;
        ok := LinkFields(a, trapJumps[kind], Trap(kind));
        if !ok { return; }
        forall k: nat | k < kind ensures Leads(a, text.data, Trap(k)) { LeadsKept(a, before, text.data, Trap(k)); }
        kind := kind + 1;
      }
      ok := true;
    }

    lemma EveryCallee(s: Site)
      requires Valid() && Recorded(s)
      ensures s in calls || s.callee == PrintInt || s.callee == PrintText || (s.callee.Trap? && s.callee.kind < TRAP_COUNT)
      ensures s.callee.Function? <==> s in calls
    {
    }

    lemma CallIndex(s: Site) returns (k: nat)
      requires s in calls
      ensures k < |calls| && calls[k] == s
    {
      k :| 0 <= k < |calls| && calls[k] == s;
    }

    /** What the loops over the separate lists add up to. */
    lemma AllLinked(a: Addresses, data: seq<Octet>)
      requires Valid() && CallsLead(a, data, |calls|)
      requires CanReach(a, PrintInt) && CanReach(a, PrintText)
      requires Leads(a, data, PrintInt) && Leads(a, data, PrintText)
      requires forall kind: nat :: kind < TRAP_COUNT ==> Resolves(a, Trap(kind)) && CanReach(a, Trap(kind)) && Leads(a, data, Trap(kind))
      ensures forall s :: Recorded(s) ==> Resolves(a, s.callee) && Reachable(machine, a, s) && Linked(machine, a, data, s)
    {
      hide Recorded, Linked, Reachable;
      forall s | Recorded(s) ensures Resolves(a, s.callee) && Reachable(machine, a, s) && Linked(machine, a, data, s) {
        EveryCallee(s);
        if s in calls { var k := CallIndex(s); }
      }
    }

    lemma CallsKept(a: Addresses, before: seq<Octet>, after: seq<Octet>)
      requires Valid() && CallsLead(a, before, |calls|) && KeepsLinks(a, before, after)
      ensures CallsLead(a, after, |calls|)
    {
      hide Recorded, Linked, Reachable;
      forall k | 0 <= k < |calls| ensures Linked(machine, a, after, calls[k]) {
        CallRecorded(k);
        LinkKept(a, before, after, calls[k]);
      }
    }

    /**
     Resolves all recorded sites. It succeeds exactly when every site can reach
     its callee; then every call, print and trap site leads to its own callee,
     and nothing but branch immediates changed.
     */
    method Link(a: Addresses) returns (ok: bool)
      requires Valid() && |a.traps| == TRAP_COUNT && forall s :: Recorded(s) ==> Resolves(a, s.callee)
      modifies text
      ensures Valid()
      ensures ok <==> forall s :: Recorded(s) ==> Reachable(machine, a, s)
      ensures ok ==> forall s :: Recorded(s) ==> Linked(machine, a, text.data, s)
      ensures ok ==> OnlyTargets(old(text.data), text.data)
    {
      forall k | 0 <= k < |calls| ensures Resolves(a, calls[k].callee) && Recorded(calls[k]) { CallRecorded(k); }
      assert forall kind: nat :: kind < TRAP_COUNT ==> Resolves(a, Trap(kind));
      ghost var start := text.data;
      ok := LinkCalls(a);
      if !ok { return; }
      ghost var first := text.data;
      ok := LinkFields(a, printIntCalls, PrintInt);
      if !ok { return; }
      ghost var second := text.data;
      ok := LinkFields(a, printTextCalls, PrintText);
      if !ok { return; }
      ghost var third := text.data;
      ok := LinkTraps(a);
      if !ok { return; }
      KeepsLinksChain(a, second, third, text.data);
      LeadsKept(a, third, text.data, PrintText);
      LeadsKept(a, second, text.data, PrintInt);
      KeepsLinksChain(a, first, second, text.data);
      KeepsLinksChain(a, start, first, text.data);
      CallsKept(a, first, text.data);
      AllLinked(a, text.data);
    }
  }
}
