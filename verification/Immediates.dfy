/** Loading a 64-bit literal: the narrowest x86-64 `mov`, and AArch64 `movz` and `movk` halfword by halfword. */
module Immediates {
  import opened Buffers
  import opened Words
  import opened Wrappers
  import E = Encoding

  // ----- x86-64 -----

  function MovCode(reg: nat, value: Int64): seq<Octet> {
    if 0 <= value <= 0xffff_ffff then
      (if reg >= 8 then [0x41] else []) + [0xb8 + reg % 8] + LittleEndian(value, 4)
    else if -0x8000_0000 <= value <= 0x7fff_ffff then
      WideOpcode(reg, true) + LittleEndian(value % 0x1_0000_0000, 4)
    else
      WideOpcode(reg, false) + LittleEndian(Unsigned(value), 8)
  }

  method MovImm32Opcode(text: Bytes, reg: nat)
    modifies text
    ensures text.data == old(text.data) + ((if reg >= 8 then [0x41] else []) + [0xb8 + reg % 8])
  {
    if reg >= 8 { text.Byte(0x41); }
    text.Byte(0xb8 + reg % 8);
  }

  /** The opcode bytes of the two forms that need REX.W. */
  function WideOpcode(reg: nat, signed: bool): seq<Octet> {
    var rex: Octet := if reg >= 8 then 0x49 else 0x48;
    if signed then [rex, 0xc7, 0xc0 + reg % 8] else [rex, 0xb8 + reg % 8]
  }

  method MovWideOpcode(text: Bytes, reg: nat, signed: bool)
    modifies text
    ensures text.data == old(text.data) + WideOpcode(reg, signed)
  {
    text.Byte(if reg >= 8 then 0x49 else 0x48);
    if signed { text.Byte(0xc7); text.Byte(0xc0 + reg % 8); } else { text.Byte(0xb8 + reg % 8); }
  }

  method MovRegisterImm64(text: Bytes, reg: nat, value: Int64)
    modifies text
    ensures text.data == old(text.data) + MovCode(reg, value)
  {
    hide LittleEndian, WideOpcode, Unsigned;
    if 0 <= value <= 0xffff_ffff {
      MovImm32Opcode(text, reg);
      text.U32(value);
    } else if -0x8000_0000 <= value <= 0x7fff_ffff {
      MovWideOpcode(text, reg, true);
      text.U32(value % 0x1_0000_0000);
    } else {
      MovWideOpcode(text, reg, false);
      text.U64(Unsigned(value));
    }
  }

  /** What one `mov` of a literal leaves: the register and its 64-bit contents. */
  datatype Loaded = Loaded(reg: nat, contents: nat, rest: seq<Octet>)

  /** `B8+r imm32` zero-extends, `REX.W C7 /0 imm32` sign-extends, `REX.W B8+r imm64` fills the register. */
  function RunMov(s: seq<Octet>): Option<Loaded> {
    if |s| >= 5 && 0xb8 <= s[0] < 0xc0 then Some(Loaded(s[0] - 0xb8, FromBytes(s[1..5]), s[5..]))
    else if |s| >= 6 && s[0] == 0x41 && 0xb8 <= s[1] < 0xc0 then Some(Loaded(s[1] - 0xb8 + 8, FromBytes(s[2..6]), s[6..]))
    else if |s| >= 7 && 0x48 <= s[0] <= 0x49 && s[1] == 0xc7 && 0xc0 <= s[2] < 0xc8 then
      Some(Loaded(s[2] - 0xc0 + 8 * (s[0] - 0x48), E.SignExtend(FromBytes(s[3..7]), 0x8000_0000) % TWO64, s[7..]))
    else if |s| >= 10 && 0x48 <= s[0] <= 0x49 && 0xb8 <= s[1] < 0xc0 then
      Some(Loaded(s[1] - 0xb8 + 8 * (s[0] - 0x48), FromBytes(s[2..10]), s[10..]))
    else None
  }

  lemma WordOfEight(value: nat)
    requires value < TWO64
    ensures FromBytes(LittleEndian(value, 8)) == value
  {
    LittleEndianRoundTrip(value, 8);
    assert Pow256(8) == 256 * Pow256(7) && Pow256(7) == 256 * Pow256(6) && Pow256(6) == 256 * Pow256(5) && Pow256(5) == 256 * Pow256(4);
    assert Pow256(4) == 256 * Pow256(3) && Pow256(3) == 256 * Pow256(2) && Pow256(2) == 256 * Pow256(1) && Pow256(1) == 256;
    assert value % TWO64 == value;
  }

  /** Whatever form is chosen, running it leaves exactly the literal in the register. */
  lemma MovRoundTrip(reg: nat, value: Int64, rest: seq<Octet>)
    requires reg < 16
    ensures RunMov(MovCode(reg, value) + rest) == Some(Loaded(reg, Unsigned(value), rest))
  {
    if 0 <= value <= 0xffff_ffff {
      MovZeroExtends(reg, value, rest);
    } else if -0x8000_0000 <= value <= 0x7fff_ffff {
      MovSignExtends(reg, value, rest);
    } else {
      MovFills(reg, value, rest);
    }
  }

  lemma MovZeroExtends(reg: nat, value: Int64, rest: seq<Octet>)
    requires reg < 16 && 0 <= value <= 0xffff_ffff
    ensures RunMov(MovCode(reg, value) + rest) == Some(Loaded(reg, Unsigned(value), rest))
  {
    E.WordOfFour(value);
    hide LittleEndian, FromBytes;
    var s := MovCode(reg, value) + rest;
    var at := if reg >= 8 then 2 else 1;
    assert s[at..at + 4] == LittleEndian(value, 4) && s[at + 4..] == rest;
  }

  lemma MovSignExtends(reg: nat, value: Int64, rest: seq<Octet>)
    requires reg < 16 && -0x8000_0000 <= value < 0
    ensures RunMov(MovCode(reg, value) + rest) == Some(Loaded(reg, Unsigned(value), rest))
  {
    E.Disp32RoundTrip(value, LittleEndian(value % 0x1_0000_0000, 4));
    hide LittleEndian, FromBytes, E.SignExtend;
    var s := MovCode(reg, value) + rest;
    assert s[3..7] == LittleEndian(value % 0x1_0000_0000, 4) && s[7..] == rest;
  }

  lemma MovFills(reg: nat, value: Int64, rest: seq<Octet>)
    requires reg < 16 && !(-0x8000_0000 <= value <= 0xffff_ffff)
    ensures RunMov(MovCode(reg, value) + rest) == Some(Loaded(reg, Unsigned(value), rest))
  {
    WordOfEight(Unsigned(value));
    hide LittleEndian, FromBytes;
    var s := MovCode(reg, value) + rest;
    assert s[2..10] == LittleEndian(Unsigned(value), 8) && s[10..] == rest;
  }

  // ----- AArch64 -----

  /** The four halfwords of a register, lowest first. */
  type Halves = h: seq<nat> | |h| == 4 && forall k :: 0 <= k < 4 ==> h[k] < 0x1_0000 witness [0, 0, 0, 0]

  function ValueOf(h: Halves): nat {
    h[0] + 0x1_0000 * h[1] + 0x1_0000_0000 * h[2] + 0x1_0000_0000_0000 * h[3]
  }

  function HalfOf(bits: nat, k: nat): (half: nat)
    requires k < 4
    ensures half < 0x1_0000
  {
    if k == 0 then bits % 0x1_0000
    else if k == 1 then bits / 0x1_0000 % 0x1_0000
    else if k == 2 then bits / 0x1_0000_0000 % 0x1_0000
    else bits / 0x1_0000_0000_0000 % 0x1_0000
  }

  lemma HalvesRestoreBits(bits: nat)
    requires bits < TWO64
    ensures ValueOf([HalfOf(bits, 0), HalfOf(bits, 1), HalfOf(bits, 2), HalfOf(bits, 3)]) == bits
  {
    assert bits / 0x1_0000_0000 == bits / 0x1_0000 / 0x1_0000;
    assert bits / 0x1_0000_0000_0000 == bits / 0x1_0000_0000 / 0x1_0000;
  }

  const MOVZ: nat := 0xd280_0000
  const MOVK: nat := 0xf280_0000

  /** A move-wide word: opcode, halfword position, sixteen bits and the register. */
  function MoveWide(opcode: nat, position: nat, immediate: nat, reg: nat): nat {
    opcode + 0x20_0000 * position + 32 * immediate + reg
  }

  function LoadCode(reg: nat, bits: nat): seq<nat> {
    if bits <= 0xffff_ffff then
      [MoveWide(MOVZ, 0, HalfOf(bits, 0), reg)]
      + if bits / 0x1_0000 != 0 then [MoveWide(MOVK, 1, HalfOf(bits, 1), reg)] else []
    else HalfwordCode(reg, bits, 0, false)
  }

  /** One `movz` for the first halfword, then a `movk` for each later one that is not zero. */
  function HalfwordCode(reg: nat, bits: nat, k: nat, started: bool): seq<nat>
    requires k <= 4
    decreases 4 - k
  {
    if k == 4 then []
    else if HalfOf(bits, k) == 0 && started then HalfwordCode(reg, bits, k + 1, started)
    else [MoveWide(if started then MOVK else MOVZ, k, HalfOf(bits, k), reg)] + HalfwordCode(reg, bits, k + 1, true)
  }

  method EmitWord(text: Bytes, word: nat, ghost words: seq<nat>, ghost start: seq<Octet>)
    requires text.data == start + WordBytes(words)
    modifies text
    ensures text.data == start + WordBytes(words + [word])
  {
    assert (words + [word])[..|words|] == words;
    text.U32(word);
  }

  function WordBytes(words: seq<nat>): seq<Octet> {
    if words == [] then [] else WordBytes(words[..|words| - 1]) + LittleEndian(words[|words| - 1], 4)
  }

  method LoadImmediate(text: Bytes, reg: nat, value: Int64)
    modifies text
    ensures text.data == old(text.data) + WordBytes(LoadCode(reg, Unsigned(value)))
  {
    hide WordBytes, HalfwordCode, HalfOf, Unsigned, MoveWide;
    var bits := Unsigned(value);
    NoWords(text.data);
    if bits <= 0xffff_ffff {
      var low := MoveWide(MOVZ, 0, HalfOf(bits, 0), reg);
      EmitWord(text, low, [], old(text.data));
      assert [] + [low] == [low];
      if bits / 0x1_0000 != 0 {
        EmitWord(text, MoveWide(MOVK, 1, HalfOf(bits, 1), reg), [low], old(text.data));
      } else {
        assert [low] + [] == [low];
      }
    } else {
      LoadHalfwords(text, reg, bits);
    }
  }

  lemma NoWords(start: seq<Octet>)
    ensures start == start + WordBytes([])
  {
  }

  method LoadHalfwords(text: Bytes, reg: nat, bits: nat)
    modifies text
    ensures text.data == old(text.data) + WordBytes(HalfwordCode(reg, bits, 0, false))
  {
    hide WordBytes, HalfOf, MoveWide;
    NoWords(text.data);
    ghost var words: seq<nat> := [];
    var started := false;
    var k := 0;
    while k < 4
      invariant 0 <= k <= 4
      invariant text.data == old(text.data) + WordBytes(words)
      invariant words + HalfwordCode(reg, bits, k, started) == HalfwordCode(reg, bits, 0, false)
    {
      var half := HalfOf(bits, k);
      if half == 0 && started {
        k := k + 1;
        continue;
      }
      var word := MoveWide(if started then MOVK else MOVZ, k, half, reg);
      EmitWord(text, word, words, old(text.data));
      assert words + ([word] + HalfwordCode(reg, bits, k + 1, true)) == (words + [word]) + HalfwordCode(reg, bits, k + 1, true);
      words := words + [word];
      started := true;
      k := k + 1;
    }
    assert words + [] == words;
  }

  /** `movz` clears the register and sets one halfword; `movk` sets one halfword and keeps the rest. */
  function RunMoveWide(words: seq<nat>, regs: map<nat, Halves>): Option<map<nat, Halves>>
    decreases |words|
  {
    if words == [] then Some(regs)
    else
      var w := words[0];
      var reg, immediate, position, opcode := w % 32, w / 32 % 0x1_0000, w / 0x20_0000 % 4, w / 0x80_0000;
      if opcode == MOVZ / 0x80_0000 then
        RunMoveWide(words[1..], regs[reg := [0, 0, 0, 0][position := immediate]])
      else if opcode == MOVK / 0x80_0000 && reg in regs then
        RunMoveWide(words[1..], regs[reg := regs[reg][position := immediate]])
      else None
  }

  lemma MoveWideFields(opcode: nat, position: nat, immediate: nat, reg: nat)
    requires opcode in {MOVZ, MOVK} && position < 4 && immediate < 0x1_0000 && reg < 32
    ensures var w := MoveWide(opcode, position, immediate, reg);
      && w % 32 == reg && w / 32 % 0x1_0000 == immediate && w / 0x20_0000 % 4 == position && w / 0x80_0000 == opcode / 0x80_0000
  {
    var w := MoveWide(opcode, position, immediate, reg);
    assert w / 32 == opcode / 32 + 0x1_0000 * position + immediate;
    assert w / 0x20_0000 == opcode / 0x20_0000 + position;
  }

  /** The halfwords below a position, and zeros above. */
  function Partial(bits: nat, k: nat): (h: Halves)
    requires k <= 4
    ensures k == 4 ==> h == [HalfOf(bits, 0), HalfOf(bits, 1), HalfOf(bits, 2), HalfOf(bits, 3)]
  {
    seq(4, i requires 0 <= i < 4 => if i < k then HalfOf(bits, i) else 0)
  }

  lemma RunKeep(position: nat, immediate: nat, reg: nat, rest: seq<nat>, regs: map<nat, Halves>)
    requires position < 4 && immediate < 0x1_0000 && reg < 32 && reg in regs
    ensures RunMoveWide([MoveWide(MOVK, position, immediate, reg)] + rest, regs)
         == RunMoveWide(rest, regs[reg := regs[reg][position := immediate]])
  {
    hide MoveWide;
    MoveWideFields(MOVK, position, immediate, reg);
    assert ([MoveWide(MOVK, position, immediate, reg)] + rest)[1..] == rest;
  }

  lemma RunZero(immediate: nat, reg: nat, rest: seq<nat>, regs: map<nat, Halves>)
    requires immediate < 0x1_0000 && reg < 32
    ensures RunMoveWide([MoveWide(MOVZ, 0, immediate, reg)] + rest, regs) == RunMoveWide(rest, regs[reg := [immediate, 0, 0, 0]])
  {
    hide MoveWide;
    MoveWideFields(MOVZ, 0, immediate, reg);
    assert ([MoveWide(MOVZ, 0, immediate, reg)] + rest)[1..] == rest;
    assert [0, 0, 0, 0][0 := immediate] == [immediate, 0, 0, 0];
  }

  lemma {:induction false} RunHalfwords(reg: nat, bits: nat, k: nat, regs: map<nat, Halves>)
    requires reg < 32 && k <= 4 && reg in regs && regs[reg] == Partial(bits, k)
    ensures RunMoveWide(HalfwordCode(reg, bits, k, true), regs) == Some(regs[reg := Partial(bits, 4)])
    decreases 4 - k
  {
    hide RunMoveWide, MoveWide, HalfOf;
    if k == 4 {
      RunNothing(regs);
      assert regs[reg := Partial(bits, 4)] == regs;
    } else {
      var half := HalfOf(bits, k);
      if half == 0 {
        assert Partial(bits, k + 1) == Partial(bits, k);
        RunHalfwords(reg, bits, k + 1, regs);
      } else {
        var next := regs[reg := regs[reg][k := half]];
        RunKeep(k, half, reg, HalfwordCode(reg, bits, k + 1, true), regs);
        assert Partial(bits, k + 1) == Partial(bits, k)[k := half];
        RunHalfwords(reg, bits, k + 1, next);
        assert next[reg := Partial(bits, 4)] == regs[reg := Partial(bits, 4)];
      }
    }
  }

  lemma RunNothing(regs: map<nat, Halves>)
    ensures RunMoveWide([], regs) == Some(regs)
  {
  }

  /** Running the sequence leaves exactly the literal in the register and touches no other. */
  lemma LoadRoundTrip(reg: nat, value: Int64, regs: map<nat, Halves>)
    requires reg < 32
    ensures exists h: Halves ::
      ValueOf(h) == Unsigned(value) && RunMoveWide(LoadCode(reg, Unsigned(value)), regs) == Some(regs[reg := h])
  {
    var bits := Unsigned(value);
    HalvesRestoreBits(bits);
    LoadRuns(reg, bits, regs);
  }

  lemma LoadRuns(reg: nat, bits: nat, regs: map<nat, Halves>)
    requires reg < 32 && bits < TWO64
    ensures RunMoveWide(LoadCode(reg, bits), regs) == Some(regs[reg := Partial(bits, 4)])
  {
    SmallHalves(bits);
    hide RunMoveWide, MoveWide, HalfOf;
    var first := regs[reg := [HalfOf(bits, 0), 0, 0, 0]];
    assert first[reg := Partial(bits, 4)] == regs[reg := Partial(bits, 4)];
    assert Partial(bits, 1) == [HalfOf(bits, 0), 0, 0, 0];
    if bits <= 0xffff_ffff {
      if bits / 0x1_0000 != 0 {
        RunZero(HalfOf(bits, 0), reg, [MoveWide(MOVK, 1, HalfOf(bits, 1), reg)], regs);
        RunKeep(1, HalfOf(bits, 1), reg, [], first);
        assert [MoveWide(MOVK, 1, HalfOf(bits, 1), reg)] + [] == [MoveWide(MOVK, 1, HalfOf(bits, 1), reg)];
        assert [HalfOf(bits, 0), 0, 0, 0][1 := HalfOf(bits, 1)] == Partial(bits, 4);
        RunNothing(first[reg := Partial(bits, 4)]);
      } else {
        RunZero(HalfOf(bits, 0), reg, [], regs);
        assert [MoveWide(MOVZ, 0, HalfOf(bits, 0), reg)] + [] == [MoveWide(MOVZ, 0, HalfOf(bits, 0), reg)];
        RunNothing(first);
        assert Partial(bits, 4) == [HalfOf(bits, 0), 0, 0, 0];
      }
    } else {
      RunZero(HalfOf(bits, 0), reg, HalfwordCode(reg, bits, 1, true), regs);
      RunHalfwords(reg, bits, 1, first);
    }
  }

  lemma SmallHalves(bits: nat)
    ensures bits <= 0xffff_ffff ==> HalfOf(bits, 2) == 0 && HalfOf(bits, 3) == 0
    ensures bits <= 0xffff ==> HalfOf(bits, 1) == 0
  {
  }
}
