/** Branch fields: placing a target in one, reading it back, and what stays as it was. */
module Patching {
  import opened Buffers

  /** The x86-64 rel32, and the AArch64 immediates of `bl`, of conditional branches and of test branches. */
  datatype Form = Rel32 | Imm26 | Imm19 | Imm14

  function Limit(form: Form): int {
    match form
    case Rel32 => 0x8000_0000
    case Imm26 => 0x200_0000
    case Imm19 => 0x4_0000
    case Imm14 => 0x2000
  }

  /** The branch immediate inside an instruction word. */
  function Field(form: Form, word: nat): nat {
    match form
    case Rel32 => word % 0x1_0000_0000
    case Imm26 => word % 0x400_0000
    case Imm19 => word / 32 % 0x8_0000
    case Imm14 => word / 32 % 0x4000
  }

  /** The bits of a word below and above its branch immediate. */
  function Around(form: Form, word: nat): (nat, nat) {
    match form
    case Rel32 => (0, word / 0x1_0000_0000)
    case Imm26 => (0, word / 0x400_0000)
    case Imm19 => (word % 32, word / 0x100_0000)
    case Imm14 => (word % 32, word / 0x8_0000)
  }

  function Signed(form: Form, field: nat): int {
    if field < Limit(form) then field else field - 2 * Limit(form)
  }

  /** Clears the immediate of a word and puts the low bits of a number in its place. */
  function Insert(form: Form, word: nat, immediate: int): nat {
    match form
    case Rel32 => immediate % 0x1_0000_0000
    case Imm26 => immediate % 0x400_0000 + 0x400_0000 * (word / 0x400_0000)
    case Imm19 => word % 32 + 32 * (immediate % 0x8_0000) + 0x100_0000 * (word / 0x100_0000)
    case Imm14 => word % 32 + 32 * (immediate % 0x4000) + 0x8_0000 * (word / 0x8_0000)
  }

  /** Insertion is read back, stays inside a word and changes no other bit. */
  lemma InsertIsExact(form: Form, word: nat, immediate: int)
    requires word < 0x1_0000_0000
    ensures Insert(form, word, immediate) < 0x1_0000_0000
    ensures Field(form, Insert(form, word, immediate)) == immediate % (2 * Limit(form))
    ensures Around(form, Insert(form, word, immediate)) == Around(form, word)
  {
    match form
    case Rel32 =>
    case Imm26 => InsertImm26(word, immediate);
    case Imm19 => InsertImm19(word, immediate);
    case Imm14 => InsertImm14(word, immediate);
  }

  lemma InsertImm26(word: nat, immediate: int)
    requires word < 0x1_0000_0000
    ensures var w := immediate % 0x400_0000 + 0x400_0000 * (word / 0x400_0000);
      0 <= w < 0x1_0000_0000 && w % 0x400_0000 == immediate % 0x400_0000 && w / 0x400_0000 == word / 0x400_0000
  {
  }

  lemma InsertImm19(word: nat, immediate: int)
    requires word < 0x1_0000_0000
    ensures var w := word % 32 + 32 * (immediate % 0x8_0000) + 0x100_0000 * (word / 0x100_0000);
      && 0 <= w < 0x1_0000_0000
      && w % 32 == word % 32 && w / 32 % 0x8_0000 == immediate % 0x8_0000 && w / 0x100_0000 == word / 0x100_0000
  {
    SplitAt32(word % 32, immediate % 0x8_0000, 0x8_0000, word / 0x100_0000);
  }

  lemma InsertImm14(word: nat, immediate: int)
    requires word < 0x1_0000_0000
    ensures var w := word % 32 + 32 * (immediate % 0x4000) + 0x8_0000 * (word / 0x8_0000);
      && 0 <= w < 0x1_0000_0000
      && w % 32 == word % 32 && w / 32 % 0x4000 == immediate % 0x4000 && w / 0x8_0000 == word / 0x8_0000
  {
    SplitAt32(word % 32, immediate % 0x4000, 0x4000, word / 0x8_0000);
  }

  /** A field between five low bits and the rest of a word. */
  lemma SplitAt32(low: nat, middle: nat, width: nat, high: nat)
    requires low < 32 && middle < width
    ensures var w := low + 32 * middle + (32 * width) * high;
      w % 32 == low && w / 32 % width == middle && w / (32 * width) == high
  {
    var w := low + 32 * middle + (32 * width) * high;
    var upper := middle + width * high;
    assert (32 * width) * high == 32 * (width * high);
    QuotientIsUnique(w, 32, upper, low);
    QuotientIsUnique(upper, width, high, middle);
    QuotientIsUnique(w, 32 * width, high, low + 32 * middle);
  }

  /** An immediate within the signed range of its field is read back unchanged. */
  lemma SignedRoundTrip(form: Form, immediate: int)
    requires -Limit(form) <= immediate < Limit(form)
    ensures Signed(form, immediate % (2 * Limit(form))) == immediate
  {
  }

  /** rel32 counts from the end of its field, the AArch64 immediates in words from the instruction. */
  function Reach(form: Form, field: nat, immediate: int): int {
    if form.Rel32? then field + 4 + immediate else field + 4 * immediate
  }

  /** The distance can be encoded. */
  predicate InReach(form: Form, field: nat, target: nat) {
    if form.Rel32? then -Limit(form) <= target - (field + 4) < Limit(form)
    else (target - field) % 4 == 0 && -Limit(form) <= (target - field) / 4 < Limit(form)
  }

  function Distance(form: Form, field: nat, target: nat): int {
    if form.Rel32? then target - (field + 4) else (target - field) / 4
  }

  function WordAt(data: seq<Octet>, field: nat): (r: nat)
    requires field + 4 <= |data|
    ensures r < 0x1_0000_0000
  {
    (data[field] as int) + 256 * (data[field + 1] as int) + 65536 * (data[field + 2] as int) + 16777216 * (data[field + 3] as int)
  }

  /** Where the branch at a field leads. */
  function Destination(data: seq<Octet>, form: Form, field: nat): int
    requires field + 4 <= |data|
  {
    Reach(form, field, Signed(form, Field(form, WordAt(data, field))))
  }

  lemma WordOfLittleEndian(word: nat, data: seq<Octet>, field: nat)
    requires word < 0x1_0000_0000 && field + 4 <= |data| && data[field..field + 4] == LittleEndian(word, 4)
    ensures WordAt(data, field) == word
  {
    var s := data[field..field + 4];
    var w1, w2, w3 := word / 256, word / 256 / 256, word / 256 / 256 / 256;
    assert LittleEndian(word, 4) == [word % 256] + LittleEndian(w1, 3);
    assert LittleEndian(w1, 3) == [w1 % 256] + LittleEndian(w2, 2);
    assert LittleEndian(w2, 2) == [w2 % 256] + LittleEndian(w3, 1);
    assert s == [word % 256, w1 % 256, w2 % 256, w3 % 256];
    assert data[field] == s[0] && data[field + 1] == s[1] && data[field + 2] == s[2] && data[field + 3] == s[3];
  }

  predicate SameBytesOutside(before: seq<Octet>, after: seq<Octet>, field: nat) {
    && |after| == |before|
    && forall i :: 0 <= i < |before| && !(field <= i < field + 4) ==> after[i] == before[i]
  }

  /**
   Places a branch target. It succeeds exactly when the field lies in the text
   and the distance fits; the branch then leads to the target, the other bits of
   the word and the other bytes of the text are as they were.
   */
  method PatchBranch(text: Bytes, form: Form, field: nat, target: nat) returns (ok: bool)
    modifies text
    ensures ok <==> InReach(form, field, target) && field + 4 <= |old(text.data)|
    ensures !ok ==> text.data == old(text.data)
    ensures ok ==> SameBytesOutside(old(text.data), text.data, field)
    ensures ok ==> Destination(text.data, form, field) == target
    ensures ok ==> Around(form, WordAt(text.data, field)) == Around(form, WordAt(old(text.data), field))
  {
    hide Field, Around, Signed, LittleEndian, Limit, Insert;
    if !InReach(form, field, target) { return false; }
    if field + 4 > |text.data| { return false; }
    var word := Insert(form, WordAt(text.data, field), Distance(form, field, target));
    InsertIsExact(form, WordAt(text.data, field), Distance(form, field, target));
    ok := text.Patch(field, LittleEndian(word, 4));
    assert text.data[field..field + 4] == LittleEndian(word, 4);
    WordOfLittleEndian(word, text.data, field);
    SignedRoundTrip(form, Distance(form, field, target));
  }

  /** A destination depends on nothing but its own four bytes. */
  lemma DestinationFrame(before: seq<Octet>, after: seq<Octet>, form: Form, site: nat, patched: nat)
    requires site + 4 <= |before| && SameBytesOutside(before, after, patched)
    requires site + 4 <= patched || patched + 4 <= site
    ensures WordAt(after, site) == WordAt(before, site)
    ensures Destination(after, form, site) == Destination(before, form, site)
  {
  }
}
