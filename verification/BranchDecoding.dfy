/** Branches as a machine reads them: which instruction stands at a place, and where it leads. */
module BranchDecoding {
  import opened Buffers
  import opened Targets

  datatype Branch =
    | CallTo(target: int)
    | JumpTo(target: int)
    | JumpIf(condition: nat, target: int)
    | JumpIfZero(reg: nat, target: int)
    | NoBranch

  /** The four bytes at a place, least significant first. */
  function Quad(data: seq<Octet>, at: nat): (r: nat)
    requires at + 4 <= |data|
  {
    (data[at] as int) + 0x100 * (data[at + 1] as int) + 0x1_0000 * (data[at + 2] as int) + 0x100_0000 * (data[at + 3] as int)
  }

  /** A field whose upper half stands for negative numbers. */
  function TwosComplement(field: nat, half: nat): int {
    if field < half then field else field - 2 * half
  }

  /** `call` and `jmp` with a 32-bit displacement, and the conditional jumps of two opcode bytes. */
  function DecodeX64(data: seq<Octet>, at: nat): Branch {
    if at + 5 <= |data| && data[at] == 0xe8 then CallTo(at + 5 + TwosComplement(Quad(data, at + 1), 0x8000_0000))
    else if at + 5 <= |data| && data[at] == 0xe9 then JumpTo(at + 5 + TwosComplement(Quad(data, at + 1), 0x8000_0000))
    else if at + 6 <= |data| && data[at] == 0x0f && 0x80 <= data[at + 1] <= 0x8f then
      JumpIf((data[at + 1] as int) - 0x80, at + 6 + TwosComplement(Quad(data, at + 2), 0x8000_0000))
    else NoBranch
  }

  /** `bl` and `b` by their top six bits, `b.cond` and `cbz` by their top eight. */
  function DecodeA64(data: seq<Octet>, at: nat): Branch {
    if at + 4 > |data| then NoBranch
    else
      var word := Quad(data, at);
      var far, near := at + 4 * TwosComplement(word % 0x400_0000, 0x200_0000), at + 4 * TwosComplement(word / 0x20 % 0x8_0000, 0x4_0000);
      if word / 0x400_0000 == 0x25 then CallTo(far)
      else if word / 0x400_0000 == 0x05 then JumpTo(far)
      else if word / 0x100_0000 == 0x54 && word % 0x20 < 0x10 then JumpIf(word % 0x20, near)
      else if word / 0x100_0000 == 0xb4 then JumpIfZero(word % 0x20, near)
      else NoBranch
  }

  function Decode(t: Target, data: seq<Octet>, at: nat): Branch {
    if t.X64? then DecodeX64(data, at) else DecodeA64(data, at)
  }

  /** The same instruction but for where it leads. */
  predicate SameKind(b: Branch, b': Branch) {
    match (b, b')
    case (CallTo(_), CallTo(_)) => true
    case (JumpTo(_), JumpTo(_)) => true
    case (JumpIf(c, _), JumpIf(c', _)) => c == c'
    case (JumpIfZero(r, _), JumpIfZero(r', _)) => r == r'
    case (NoBranch, NoBranch) => true
    case _ => false
  }

  /** What stands behind a branch does not matter to it. */
  lemma DecodeBehind(t: Target, data: seq<Octet>, more: seq<Octet>, at: nat)
    requires !Decode(t, data, at).NoBranch?
    ensures Decode(t, data + more, at) == Decode(t, data, at)
  {}

  /** Nor does what stands before it, but for the place it counts from. */
  lemma DecodeBefore(t: Target, before: seq<Octet>, data: seq<Octet>, at: nat)
    ensures SameKind(Decode(t, data, at), Decode(t, before + data, |before| + at))
  {
    forall i | 0 <= i < |data| ensures (before + data)[|before| + i] == data[i] {}
  }

  // ----- the branches the emitters write -----

  lemma QuadOfLittleEndian(word: nat)
    requires word < 0x1_0000_0000
    ensures Quad(LittleEndian(word, 4), 0) == word
  {
    var w1, w2, w3 := word / 256, word / 256 / 256, word / 256 / 256 / 256;
    assert LittleEndian(word, 4) == [word % 256] + LittleEndian(w1, 3);
    assert LittleEndian(w1, 3) == [w1 % 256] + LittleEndian(w2, 2);
    assert LittleEndian(w2, 2) == [w2 % 256] + LittleEndian(w3, 1);
    assert LittleEndian(word, 4) == [word % 256, w1 % 256, w2 % 256, w3 % 256];
  }

  /** `call` and `jmp`, and the jumps of the condition codes, count from their end. */
  lemma X64Branches(k: int, condition: nat)
    requires -0x8000_0000 <= k < 0x8000_0000 && condition < 16
    ensures var field := LittleEndian(k % 0x1_0000_0000, 4);
      && DecodeX64([0xe8] + field, 0) == CallTo(5 + k) && DecodeX64([0xe9] + field, 0) == JumpTo(5 + k)
      && DecodeX64([0x0f, 0x80 + condition] + field, 0) == JumpIf(condition, 6 + k)
  {
    var field := LittleEndian(k % 0x1_0000_0000, 4);
    QuadOfLittleEndian(k % 0x1_0000_0000);
    hide LittleEndian;
    QuadBehind([0xe8], field);
    QuadBehind([0xe9], field);
    QuadBehind([0x0f, 0x80 + condition], field);
  }

  lemma QuadBehind(opcode: seq<Octet>, field: seq<Octet>)
    requires |field| == 4
    ensures Quad(opcode + field, |opcode|) == Quad(field, 0)
  {}

  lemma FarFields(top: nat, immediate: nat)
    requires immediate < 0x400_0000
    ensures (0x400_0000 * top + immediate) / 0x400_0000 == top && (0x400_0000 * top + immediate) % 0x400_0000 == immediate
  {}

  lemma FarWraps(k: int)
    requires -0x200_0000 <= k < 0x200_0000
    ensures TwosComplement(k % 0x400_0000, 0x200_0000) == k
  {}

  /** `bl` and `b` count in words from themselves. */
  lemma FarBranches(k: int)
    requires -0x200_0000 <= k < 0x200_0000
    ensures DecodeA64(LittleEndian(0x400_0000 * 0x25 + k % 0x400_0000, 4), 0) == CallTo(4 * k)
    ensures DecodeA64(LittleEndian(0x400_0000 * 0x05 + k % 0x400_0000, 4), 0) == JumpTo(4 * k)
  {
    hide LittleEndian, Quad, TwosComplement;
    FarWraps(k);
    var immediate := k % 0x400_0000;
    FarFields(0x25, immediate);
    FarFields(0x05, immediate);
    QuadOfLittleEndian(0x400_0000 * 0x25 + immediate);
    QuadOfLittleEndian(0x400_0000 * 0x05 + immediate);
  }

  lemma TopEight(top: nat, rest: nat)
    requires rest < 0x100_0000
    ensures (0x100_0000 * top + rest) / 0x100_0000 == top
  {}

  lemma TopSix(top: nat, rest: nat)
    requires rest < 0x100_0000
    ensures (0x100_0000 * top + rest) / 0x400_0000 == top / 4
  {}

  lemma LowFields(top: nat, immediate: nat, low: nat)
    requires immediate < 0x8_0000 && low < 0x20
    ensures var word := 0x100_0000 * top + (0x20 * immediate + low);
      word / 0x20 % 0x8_0000 == immediate && word % 0x20 == low
  {
    assert (0x100_0000 * top + (0x20 * immediate + low)) / 0x20 == 0x8_0000 * top + immediate;
  }

  lemma NearWraps(k: int)
    requires -0x4_0000 <= k < 0x4_0000
    ensures TwosComplement(k % 0x8_0000, 0x4_0000) == k
  {}

  /** So do `b.cond` and `cbz`, the immediate above the condition or the register. */
  lemma NearBranches(k: int, low: nat)
    requires -0x4_0000 <= k < 0x4_0000 && low < 0x20
    ensures low < 0x10 ==> DecodeA64(LittleEndian(0x100_0000 * 0x54 + (0x20 * (k % 0x8_0000) + low), 4), 0) == JumpIf(low, 4 * k)
    ensures DecodeA64(LittleEndian(0x100_0000 * 0xb4 + (0x20 * (k % 0x8_0000) + low), 4), 0) == JumpIfZero(low, 4 * k)
  {
    hide LittleEndian, Quad, TwosComplement;
    NearWraps(k);
    NearBranch(0x54, k, low);
    NearBranch(0xb4, k, low);
  }

  lemma NearBranch(top: nat, k: int, low: nat)
    requires top < 0x100 && -0x4_0000 <= k < 0x4_0000 && low < 0x20
    ensures var bytes := LittleEndian(0x100_0000 * top + (0x20 * (k % 0x8_0000) + low), 4);
      |bytes| == 4 && var word := Quad(bytes, 0);
        word / 0x100_0000 == top && word / 0x400_0000 == top / 4 && word / 0x20 % 0x8_0000 == k % 0x8_0000 && word % 0x20 == low
  {
    hide LittleEndian, Quad;
    var immediate := k % 0x8_0000;
    var rest := 0x20 * immediate + low;
    TopEight(top, rest);
    TopSix(top, rest);
    LowFields(top, immediate, low);
    QuadOfLittleEndian(0x100_0000 * top + rest);
  }
}
