/** x86-64 instruction bytes: REX.W, opcode, ModRM and displacement, with the decoder that reads them back. */
module Encoding {
  import opened Buffers
  import opened Targets
  import opened Wrappers

  const RBP: nat := 5
  const MAX_SLOTS: nat := 0x7fff_ffff / 8

  /** What a ModRM operand names. */
  datatype Place = Register(reg: nat) | Memory(base: nat, displacement: int)

  datatype Decoded = Decoded(opcode: seq<Octet>, reg: nat, place: Place, rest: seq<Octet>)

  /** A frame slot is addressed down from the frame pointer. */
  function PlaceOf(o: Operand): Place {
    match o
    case Reg(r) => Register(r)
    case Slot(s) => Memory(RBP, -8 * (s + 1))
  }

  function Rex(reg: nat, rm: nat): Octet {
    0x48 + (if reg >= 8 then 4 else 0) + (if rm >= 8 then 1 else 0)
  }

  function ModRm(mode: nat, reg: nat, rm: nat): Octet
    requires mode < 4
  {
    64 * mode + 8 * (reg % 8) + rm % 8
  }

  predicate Fits8(displacement: int) {
    -128 <= displacement <= 127
  }

  /** The ModRM byte and displacement of an operand. */
  function OperandCode(reg: nat, o: Operand): seq<Octet> {
    match o
    case Reg(r) => [ModRm(3, reg, r)]
    case Slot(s) =>
      var displacement := -8 * (s + 1);
      if Fits8(displacement) then [ModRm(1, reg, RBP), displacement % 256]
      else [ModRm(2, reg, RBP)] + LittleEndian(displacement % 0x1_0000_0000, 4)
  }

  function RmOf(o: Operand): nat {
    if o.Reg? then o.reg else RBP
  }

  function EncodeCode(opcode: seq<Octet>, reg: nat, o: Operand): seq<Octet> {
    [Rex(reg, RmOf(o))] + opcode + OperandCode(reg, o)
  }

  /** One-byte opcodes, and two-byte opcodes behind the 0f escape. */
  predicate IsOpcode(opcode: seq<Octet>) {
    (|opcode| == 1 && opcode[0] != 0x0f) || (|opcode| == 2 && opcode[0] == 0x0f)
  }

  predicate Encodable(reg: nat, o: Operand) {
    reg < 16 && (if o.Reg? then o.reg < 16 else o.slot < MAX_SLOTS)
  }

  method EncodeOperand(text: Bytes, reg: nat, o: Operand) returns (ok: bool)
    requires reg < 16 && (o.Reg? ==> o.reg < 16)
    modifies text
    ensures ok <==> Encodable(reg, o)
    ensures ok ==> text.data == old(text.data) + OperandCode(reg, o)
    ensures ok ==> |text.data| == |old(text.data)| + (if o.Reg? then 1 else if o.slot < 16 then 2 else 5)
  {
    if o.Reg? {
      text.Byte(ModRm(3, reg, o.reg));
      return true;
    }
    if o.slot >= MAX_SLOTS { return false; }
    var displacement := -8 * (o.slot + 1);
    if Fits8(displacement) {
      text.Byte(ModRm(1, reg, RBP));
      text.Byte(displacement % 256);
    } else {
      text.Byte(ModRm(2, reg, RBP));
      text.U32(displacement % 0x1_0000_0000);
    }
    ok := true;
  }

  /** Emits one instruction; a slot past the reach of a 32-bit displacement is fatal. */
  method Encode(text: Bytes, opcode: seq<Octet>, reg: nat, o: Operand) returns (ok: bool)
    requires reg < 16 && (o.Reg? ==> o.reg < 16)
    modifies text
    ensures ok <==> Encodable(reg, o)
    ensures ok ==> text.data == old(text.data) + EncodeCode(opcode, reg, o)
  {
    text.Byte(Rex(reg, RmOf(o)));
    var index := 0;
    while index < |opcode|
      invariant 0 <= index <= |opcode|
      invariant text.data == old(text.data) + [Rex(reg, RmOf(o))] + opcode[..index]
    {
      text.Byte(opcode[index]);
      index := index + 1;
    }
    assert opcode[..index] == opcode;
    ok := EncodeOperand(text, reg, o);
  }

  // ----- decoding -----

  function SignExtend(value: nat, bound: nat): int {
    if value < bound then value else value - 2 * bound
  }

  /** Reads a ModRM operand; addressing forms without a base and displacement are not used. */
  function DecodeOperand(s: seq<Octet>, rexR: nat, rexB: nat): Option<(nat, Place, seq<Octet>)> {
    if s == [] then None
    else
      var mode, reg, rm := s[0] / 64, s[0] / 8 % 8 + 8 * rexR, s[0] % 8 + 8 * rexB;
      if mode == 3 then Some((reg, Register(rm), s[1..]))
      else if s[0] % 8 == 4 then None
      else if mode == 1 && |s| >= 2 then Some((reg, Memory(rm, SignExtend(s[1], 128)), s[2..]))
      else if mode == 2 && |s| >= 5 then Some((reg, Memory(rm, SignExtend(FromBytes(s[1..5]), 0x8000_0000)), s[5..]))
      else None
  }

  /** Reads one REX.W instruction with a ModRM operand. */
  function Decode(s: seq<Octet>): Option<Decoded> {
    if |s| < 3 || s[0] / 8 != 9 then None
    else
      var length := if s[1] == 0x0f then 2 else 1;
      var operand := DecodeOperand(s[1 + length..], s[0] / 4 % 2, s[0] % 2);
      if operand.None? then None
      else Some(Decoded(s[1..1 + length], operand.value.0, operand.value.1, operand.value.2))
  }

  lemma ModRmFields(mode: nat, reg: nat, rm: nat)
    requires mode < 4
    ensures var m := ModRm(mode, reg, rm); m / 64 == mode && m / 8 % 8 == reg % 8 && m % 8 == rm % 8
  {
  }

  lemma RexFields(reg: nat, rm: nat)
    requires reg < 16 && rm < 16
    ensures var x := Rex(reg, rm);
      x / 8 == 9 && reg % 8 + 8 * (x / 4 % 2) == reg && rm % 8 + 8 * (x % 2) == rm
  {
  }

  lemma Disp32RoundTrip(displacement: int, s: seq<Octet>)
    requires -0x8000_0000 <= displacement < 0x8000_0000
    requires s == LittleEndian(displacement % 0x1_0000_0000, 4)
    ensures SignExtend(FromBytes(s), 0x8000_0000) == displacement
  {
    WordOfFour(displacement % 0x1_0000_0000);
  }

  lemma WordOfFour(value: nat)
    requires value < 0x1_0000_0000
    ensures FromBytes(LittleEndian(value, 4)) == value
  {
    LittleEndianRoundTrip(value, 4);
    assert Pow256(4) == 256 * Pow256(3) && Pow256(3) == 256 * Pow256(2) && Pow256(2) == 256 * Pow256(1) && Pow256(1) == 256;
    assert value % 0x1_0000_0000 == value;
  }

  lemma OperandRoundTrip(reg: nat, o: Operand, rest: seq<Octet>)
    requires Encodable(reg, o)
    ensures var x := Rex(reg, RmOf(o));
      DecodeOperand(OperandCode(reg, o) + rest, x / 4 % 2, x % 2) == Some((reg, PlaceOf(o), rest))
  {
    hide LittleEndian, FromBytes, Rex, ModRm;
    RexFields(reg, RmOf(o));
    var s := OperandCode(reg, o) + rest;
    match o
    case Reg(r) =>
      ModRmFields(3, reg, r);
      assert s[1..] == rest;
    case Slot(slot) =>
      var displacement := -8 * (slot + 1);
      if Fits8(displacement) {
        ModRmFields(1, reg, RBP);
        assert s[2..] == rest;
      } else {
        ModRmFields(2, reg, RBP);
        assert s[1..5] == LittleEndian(displacement % 0x1_0000_0000, 4);
        Disp32RoundTrip(displacement, s[1..5]);
        assert s[5..] == rest;
      }
  }

  /** The decoder recovers opcode, register and operand, for every register and every addressable slot. */
  lemma EncodeRoundTrip(opcode: seq<Octet>, reg: nat, o: Operand, rest: seq<Octet>)
    requires IsOpcode(opcode) && Encodable(reg, o)
    ensures Decode(EncodeCode(opcode, reg, o) + rest) == Some(Decoded(opcode, reg, PlaceOf(o), rest))
  {
    hide OperandCode, DecodeOperand, Rex;
    var s := EncodeCode(opcode, reg, o) + rest;
    var tail := OperandCode(reg, o) + rest;
    RexFields(reg, RmOf(o));
    OperandRoundTrip(reg, o, rest);
    OperandCodeNonEmpty(reg, o);
    assert s == [Rex(reg, RmOf(o))] + (opcode + tail);
    assert s[1..1 + |opcode|] == opcode && s[1 + |opcode|..] == tail;
  }

  lemma OperandCodeNonEmpty(reg: nat, o: Operand)
    ensures OperandCode(reg, o) != []
  {
  }

  /** No encoding is a prefix of another: instructions that differ differ in their bytes, whatever follows. */
  lemma EncodingsDiffer(opcode: seq<Octet>, reg: nat, o: Operand, opcode': seq<Octet>, reg': nat, o': Operand)
    requires IsOpcode(opcode) && Encodable(reg, o) && IsOpcode(opcode') && Encodable(reg', o')
    requires EncodeCode(opcode, reg, o) <= EncodeCode(opcode', reg', o')
    ensures opcode == opcode' && reg == reg' && o == o'
  {
    var a, b := EncodeCode(opcode, reg, o), EncodeCode(opcode', reg', o');
    EncodeRoundTrip(opcode, reg, o, b[|a|..]);
    EncodeRoundTrip(opcode', reg', o', []);
    assert a + b[|a|..] == b && b + [] == b;
  }
}
