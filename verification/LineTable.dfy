/** The debug line table: recorded rows, LEB128 numbers, the line-number program, and the machine that reads it. */
module LineTable {
  import opened Buffers
  import opened Wrappers

  const TEXT_ADDRESS: nat := 0x400000 + 64 + 56 * 2 // image base, then the ELF and program headers
  const LINE_BASE: int := -5
  const LINE_RANGE: nat := 14
  const OPCODE_BASE: nat := 13
  const MAX_LINE: nat := 0x7fff_ffff_ffff_ffff

  // ----- LEB128 -----

  function UlebCode(value: nat): (code: seq<Octet>)
    ensures code != []
  {
    if value < 128 then [value] else [value % 128 + 128] + UlebCode(value / 128)
  }

  function SlebCode(value: int): (code: seq<Octet>)
    ensures code != []
    decreases if value < 0 then -value else value
  {
    var low := value % 128;
    if (value / 128 == 0 && low < 64) || (value / 128 == -1 && low >= 64) then [low]
    else [low + 128] + SlebCode(value / 128)
  }

  datatype Read<T> = Truncated | Read(value: T, rest: seq<Octet>)

  function ReadUleb(s: seq<Octet>): (r: Read<nat>)
    ensures r.Read? ==> |r.rest| < |s|
  {
    if s == [] then Truncated
    else if s[0] < 128 then Read(s[0], s[1..])
    else
      var more := ReadUleb(s[1..]);
      if more.Truncated? then Truncated else Read(s[0] - 128 + 128 * more.value, more.rest)
  }

  function ReadSleb(s: seq<Octet>): (r: Read<int>)
    ensures r.Read? ==> |r.rest| < |s|
  {
    if s == [] then Truncated
    else if s[0] < 128 then Read((s[0] as int) - (if s[0] < 64 then 0 else 128), s[1..])
    else
      var more := ReadSleb(s[1..]);
      if more.Truncated? then Truncated else Read(s[0] - 128 + 128 * more.value, more.rest)
  }

  lemma {:induction false} UlebRoundTrip(value: nat, rest: seq<Octet>)
    ensures ReadUleb(UlebCode(value) + rest) == Read(value, rest)
  {
    var s := UlebCode(value) + rest;
    if value < 128 {
      assert s[1..] == rest;
    } else {
      UlebRoundTrip(value / 128, rest);
      assert s[1..] == UlebCode(value / 128) + rest;
    }
  }

  lemma {:induction false} SlebRoundTrip(value: int, rest: seq<Octet>)
    ensures ReadSleb(SlebCode(value) + rest) == Read(value, rest)
    decreases if value < 0 then -value else value
  {
    var s := SlebCode(value) + rest;
    var low := value % 128;
    if (value / 128 == 0 && low < 64) || (value / 128 == -1 && low >= 64) {
      assert s[1..] == rest;
    } else {
      SlebRoundTrip(value / 128, rest);
      assert s[1..] == SlebCode(value / 128) + rest;
    }
  }

  /** Appending a code byte by byte. */
  lemma Appending(s: seq<Octet>, code: seq<Octet>)
    requires code != []
    ensures s + code == (s + [code[0]]) + code[1..]
    ensures |code| == 1 ==> s + code == s + [code[0]]
  {
  }

  method Uleb(bytes: Bytes, value: nat)
    modifies bytes
    ensures bytes.data == old(bytes.data) + UlebCode(value)
  {
    ghost var target := bytes.data + UlebCode(value);
    var left := value;
    var more := true;
    while more
      invariant if more then bytes.data + UlebCode(left) == target else bytes.data == target
      decreases left, more
    {
      Appending(bytes.data, UlebCode(left));
      var encoded := left % 128;
      left := left / 128;
      bytes.Byte(if left != 0 then encoded + 128 else encoded);
      more := left != 0;
    }
  }

  method Sleb(bytes: Bytes, value: int)
    modifies bytes
    ensures bytes.data == old(bytes.data) + SlebCode(value)
  {
    ghost var target := bytes.data + SlebCode(value);
    var left := value;
    var more := true;
    while more
      invariant if more then bytes.data + SlebCode(left) == target else bytes.data == target
      decreases more, if left < 0 then -left else left
    {
      Appending(bytes.data, SlebCode(left));
      var encoded := left % 128;
      var sign := encoded >= 64;
      left := left / 128;
      if (left == 0 && !sign) || (left == -1 && sign) {
        bytes.Byte(encoded);
        more := false;
      } else {
        bytes.Byte(encoded + 128);
      }
    }
  }

  // ----- recorded rows -----

  datatype Row = Row(offset: nat, line: nat)

  predicate Ordered(rows: seq<Row>) {
    forall i, j :: 0 <= i < j < |rows| ==> rows[i].offset <= rows[j].offset
  }

  /** The rows the table can be built from. */
  predicate Encodable(rows: seq<Row>, textSize: nat) {
    && rows != []
    && Ordered(rows)
    && forall i :: 0 <= i < |rows| ==> rows[i].offset <= textSize && rows[i].line <= MAX_LINE
  }

  /** The line a table gives for an offset: the one of the last row at or before it. */
  function LineAt(rows: seq<Row>, offset: nat): Option<nat> {
    if rows == [] then None
    else if rows[|rows| - 1].offset <= offset then Some(rows[|rows| - 1].line)
    else LineAt(rows[..|rows| - 1], offset)
  }

  class LineRows {
    var rows: seq<Row>

    constructor ()
      ensures rows == []
    {
      rows := [];
    }

    /** Records that text from an offset on belongs to a line, unless the last row already says so. */
    method Record(offset: nat, line: nat) returns (ok: bool)
      modifies this
      ensures ok <==> line > 0
      ensures !ok ==> rows == old(rows)
      ensures ok ==> rows == Recorded(old(rows), offset, line)
    {
      if line == 0 { return false; }
      ok := true;
      if |rows| > 0 && rows[|rows| - 1].line == line { return; }
      rows := rows + [Row(offset, line)];
    }
  }

  function Recorded(rows: seq<Row>, offset: nat, line: nat): seq<Row> {
    if rows != [] && rows[|rows| - 1].line == line then rows else rows + [Row(offset, line)]
  }

  /** No row repeats the line of the one before it. */
  ghost predicate NoRepeats(rows: seq<Row>) {
    forall i :: 0 < i < |rows| ==> rows[i].line != rows[i - 1].line
  }

  /** Dropping a row that repeats the last line changes no lookup and leaves no repetition. */
  lemma RecordingKeepsLookups(rows: seq<Row>, offset: nat, line: nat, probe: nat)
    requires Ordered(rows) && (rows != [] ==> rows[|rows| - 1].offset <= offset)
    ensures Ordered(Recorded(rows, offset, line)) && (NoRepeats(rows) ==> NoRepeats(Recorded(rows, offset, line)))
    ensures LineAt(Recorded(rows, offset, line), probe) == if offset <= probe then Some(line) else LineAt(rows, probe)
  {
    var longer := rows + [Row(offset, line)];
    assert longer[..|longer| - 1] == rows;
  }

  // ----- emission only appends -----

  datatype Action = Append(size: nat) | Mark(line: nat)

  /** The rows and the text size after a run of emission steps; none when a line is not positive. */
  function Emitted(actions: seq<Action>): Option<(seq<Row>, nat)> {
    if actions == [] then Some(([], 0))
    else
      var before := Emitted(actions[..|actions| - 1]);
      if before.None? then None
      else
        match actions[|actions| - 1]
        case Append(size) => Some((before.value.0, before.value.1 + size))
        case Mark(line) => if line == 0 then None else Some((Recorded(before.value.0, before.value.1, line), before.value.1))
  }

  /** Rows recorded while the text only grows are in order and inside the text. */
  lemma {:induction false} EmittedInOrder(actions: seq<Action>)
    requires Emitted(actions).Some?
    ensures var (rows, size) := Emitted(actions).value;
      Ordered(rows) && NoRepeats(rows) && forall i :: 0 <= i < |rows| ==> rows[i].offset <= size && rows[i].line > 0
  {
    if actions != [] { EmittedInOrder(actions[..|actions| - 1]); }
  }

  // ----- the line-number program -----

  function RowCode(from: Row, to: Row): seq<Octet>
    requires from.offset <= to.offset
  {
    (if to.offset != from.offset then [2] + UlebCode(to.offset - from.offset) else [])
    + (if to.line != from.line then [3] + SlebCode(to.line - from.line) else [])
    + [1]
  }

  /** The first rows of a program; the machine starts at offset zero on line one. */
  function RowsCode(rows: seq<Row>): seq<Octet>
    requires Ordered(rows)
  {
    if rows == [] then []
    else
      var last := |rows| - 1;
      RowsCode(rows[..last]) + RowCode(Before(rows, last), rows[last])
  }

  function Before(rows: seq<Row>, i: nat): Row
    requires i <= |rows|
  {
    if i == 0 then Row(0, 1) else rows[i - 1]
  }

  function OpeningCode(): seq<Octet> {
    [0] + UlebCode(9) + [2] + LittleEndian(TEXT_ADDRESS, 8)
  }

  function ClosingCode(left: nat): seq<Octet> {
    (if left != 0 then [2] + UlebCode(left) else []) + ([0] + UlebCode(1) + [1])
  }

  function ProgramCode(rows: seq<Row>, textSize: nat): seq<Octet>
    requires Encodable(rows, textSize)
  {
    OpeningCode() + RowsCode(rows) + ClosingCode(textSize - rows[|rows| - 1].offset)
  }

  method EmitRow(program: Bytes, current: Row, wanted: Row)
    requires current.offset <= wanted.offset
    modifies program
    ensures program.data == old(program.data) + RowCode(current, wanted)
  {
    if wanted.offset != current.offset {
      program.Byte(2);
      Uleb(program, wanted.offset - current.offset);
    }
    if wanted.line != current.line {
      program.Byte(3);
      Sleb(program, wanted.line - current.line);
    }
    program.Byte(1);
  }

  method EmitOpening(program: Bytes)
    modifies program
    ensures program.data == old(program.data) + OpeningCode()
  {
    program.Byte(0);
    Uleb(program, 9);
    program.Byte(2);
    program.U64(TEXT_ADDRESS);
  }

  method EmitClosing(program: Bytes, left: nat)
    modifies program
    ensures program.data == old(program.data) + ClosingCode(left)
  {
    if left != 0 {
      program.Byte(2);
      Uleb(program, left);
    }
    program.Byte(0);
    Uleb(program, 1);
    program.Byte(1);
  }

  /** The rows up to a bound are in order, inside the text and on lines the machine can count. */
  predicate Checked(rows: seq<Row>, textSize: nat, bound: nat)
    requires bound <= |rows|
  {
    && Ordered(rows[..bound])
    && forall i :: 0 <= i < bound ==> rows[i].offset <= textSize && rows[i].line <= MAX_LINE
  }

  lemma CheckedAll(rows: seq<Row>, textSize: nat)
    ensures rows != [] ==> (Checked(rows, textSize, |rows|) <==> Encodable(rows, textSize))
  {
    assert rows[..|rows|] == rows;
  }

  lemma RefusedRow(rows: seq<Row>, textSize: nat, i: nat)
    requires i < |rows|
    requires rows[i].offset < Before(rows, i).offset || rows[i].offset > textSize || rows[i].line > MAX_LINE
    ensures !Encodable(rows, textSize)
  {
  }

  /** Every row in turn, each checked before it is emitted. */
  method EmitRows(program: Bytes, rows: seq<Row>, textSize: nat) returns (ok: bool)
    requires rows != []
    modifies program
    ensures ok <==> Encodable(rows, textSize)
    ensures ok ==> program.data == old(program.data) + RowsCode(rows)
  {
    hide Encodable, Ordered, RowCode, RowsCode;
    RowsCodeStarts(rows);
    var current := Row(0, 1);
    var index := 0;
    while index < |rows|
      invariant 0 <= index <= |rows| && current == Before(rows, index)
      invariant Checked(rows, textSize, index)
      invariant program.data == old(program.data) + RowsCode(rows[..index])
    {
      if rows[index].offset < current.offset || rows[index].offset > textSize || rows[index].line > MAX_LINE {
        RefusedRow(rows, textSize, index);
        return false;
      }
      OrderedGrows(rows, index);
      EmitRow(program, current, rows[index]);
      current := rows[index];
      index := index + 1;
    }
    assert rows[..index] == rows;
    CheckedAll(rows, textSize);
    ok := true;
  }

  lemma RowsCodeStarts(rows: seq<Row>)
    ensures Ordered(rows[..0]) && RowsCode(rows[..0]) == []
  {
  }

  /** Builds the whole program; refuses no rows, rows out of order or outside the text, and lines past the machine's. */
  method EmitProgram(program: Bytes, rows: seq<Row>, textSize: nat) returns (ok: bool)
    modifies program
    ensures ok <==> Encodable(rows, textSize)
    ensures ok ==> program.data == old(program.data) + ProgramCode(rows, textSize)
  {
    hide RowsCode, OpeningCode, ClosingCode;
    if rows == [] { return false; }
    EmitOpening(program);
    ok := EmitRows(program, rows, textSize);
    if !ok { return; }
    EmitClosing(program, textSize - rows[|rows| - 1].offset);
  }

  lemma OrderedGrows(rows: seq<Row>, i: nat)
    requires i < |rows| && Ordered(rows[..i]) && Before(rows, i).offset <= rows[i].offset
    ensures Ordered(rows[..i + 1])
    ensures RowsCode(rows[..i + 1]) == RowsCode(rows[..i]) + RowCode(Before(rows, i), rows[i])
  {
    assert rows[..i + 1][..i] == rows[..i];
    forall a, b | 0 <= a < b < i + 1 ensures rows[a].offset <= rows[b].offset {
      assert rows[a] == rows[..i][a];
      if b < i { assert rows[b] == rows[..i][b]; }
      if b == i && a < i - 1 { assert rows[..i][a].offset <= rows[..i][i - 1].offset; }
    }
  }

  // ----- the line-number machine -----

  datatype Entry = Entry(address: nat, line: int, end: bool)

  /**
   Runs a line-number program from given registers. Standard opcodes the
   producer never uses make the run fail.
   */
  function Run(s: seq<Octet>, address: nat, line: int): Option<seq<Entry>>
    decreases |s|
  {
    if s == [] then Some([])
    else if s[0] == 0 then
      var length := ReadUleb(s[1..]);
      if length.Truncated? || length.value == 0 || |length.rest| < length.value then None
      else
        var body, rest := length.rest[..length.value], length.rest[length.value..];
        if body[0] == 1 then Emit(Entry(address, line, true), Run(rest, 0, 1))
        else if body[0] == 2 then if |body| == 9 then Run(rest, FromBytes(body[1..]), line) else None
        else Run(rest, address, line)
    else if s[0] == 1 then Emit(Entry(address, line, false), Run(s[1..], address, line))
    else if s[0] == 2 then
      var advance := ReadUleb(s[1..]);
      if advance.Truncated? then None else Run(advance.rest, address + advance.value, line)
    else if s[0] == 3 then
      var advance := ReadSleb(s[1..]);
      if advance.Truncated? then None else Run(advance.rest, address, line + advance.value)
    else if s[0] < OPCODE_BASE then None
    else
      var adjusted := s[0] - OPCODE_BASE;
      var there := address + adjusted / LINE_RANGE;
      var then_ := line + LINE_BASE + adjusted % LINE_RANGE;
      Emit(Entry(there, then_, false), Run(s[1..], there, then_))
  }

  function Emit(e: Entry, more: Option<seq<Entry>>): Option<seq<Entry>> {
    if more.None? then None else Some([e] + more.value)
  }

  // ----- the machine reads back what was recorded -----

  lemma RunAdvancesAddress(n: nat, rest: seq<Octet>, address: nat, line: int)
    ensures Run([2] + UlebCode(n) + rest, address, line) == Run(rest, address + n, line)
  {
    UlebRoundTrip(n, rest);
    assert ([2] + UlebCode(n) + rest)[1..] == UlebCode(n) + rest;
  }

  lemma RunAdvancesLine(n: int, rest: seq<Octet>, address: nat, line: int)
    ensures Run([3] + SlebCode(n) + rest, address, line) == Run(rest, address, line + n)
  {
    SlebRoundTrip(n, rest);
    assert ([3] + SlebCode(n) + rest)[1..] == SlebCode(n) + rest;
  }

  /** One row's code appends exactly that row. */
  lemma RunRow(from: Row, to: Row, rest: seq<Octet>, address: nat)
    requires from.offset <= to.offset
    ensures Run(RowCode(from, to) + rest, address + from.offset, from.line)
         == Emit(Entry(address + to.offset, to.line, false), Run(rest, address + to.offset, to.line))
  {
    hide Run;
    var pc := if to.offset != from.offset then [2] + UlebCode(to.offset - from.offset) else [];
    var ln := if to.line != from.line then [3] + SlebCode(to.line - from.line) else [];
    assert RowCode(from, to) + rest == pc + (ln + ([1] + rest));
    if to.offset != from.offset {
      RunAdvancesAddress(to.offset - from.offset, ln + ([1] + rest), address + from.offset, from.line);
    } else {
      assert pc + (ln + ([1] + rest)) == ln + ([1] + rest);
    }
    if to.line != from.line {
      RunAdvancesLine(to.line - from.line, [1] + rest, address + to.offset, from.line);
    } else {
      assert ln + ([1] + rest) == [1] + rest;
    }
    RunCopy(rest, address + to.offset, to.line);
  }

  lemma RunCopy(rest: seq<Octet>, address: nat, line: int)
    ensures Run([1] + rest, address, line) == Emit(Entry(address, line, false), Run(rest, address, line))
  {
    assert ([1] + rest)[1..] == rest;
  }

  /** What the table should say: one entry per row, at its address and on its line. */
  function Entries(rows: seq<Row>): (r: seq<Entry>)
    ensures |r| == |rows|
    ensures forall i :: 0 <= i < |rows| ==> r[i] == Entry(TEXT_ADDRESS + rows[i].offset, rows[i].line, false)
  {
    seq(|rows|, i requires 0 <= i < |rows| => Entry(TEXT_ADDRESS + rows[i].offset, rows[i].line, false))
  }

  function Prepend(es: seq<Entry>, more: Option<seq<Entry>>): Option<seq<Entry>> {
    if more.None? then None else Some(es + more.value)
  }

  lemma PrependNothing(more: Option<seq<Entry>>)
    ensures Prepend([], more) == more
  {
    if more.Some? { assert [] + more.value == more.value; }
  }

  lemma PrependEmit(es: seq<Entry>, e: Entry, more: Option<seq<Entry>>)
    ensures Prepend(es, Emit(e, more)) == Prepend(es + [e], more)
  {
    if more.Some? { assert es + ([e] + more.value) == es + [e] + more.value; }
  }

  /** The last row of a run of rows, behind the others. */
  lemma RunLastRow(rows: seq<Row>, rest: seq<Octet>)
    requires rows != [] && Ordered(rows)
    ensures Ordered(rows[..|rows| - 1]) && Before(rows, |rows| - 1).offset <= rows[|rows| - 1].offset
    ensures var last := |rows| - 1;
      var entry := Entry(TEXT_ADDRESS + rows[last].offset, rows[last].line, false);
      && RowsCode(rows) + rest == RowsCode(rows[..last]) + (RowCode(Before(rows, last), rows[last]) + rest)
      && Run(RowCode(Before(rows, last), rows[last]) + rest, TEXT_ADDRESS + Before(rows, last).offset, Before(rows, last).line)
         == Emit(entry, Run(rest, entry.address, entry.line))
      && Entries(rows) == Entries(rows[..last]) + [entry]
  {
    hide Run, RowCode;
    var last := |rows| - 1;
    RunRow(Before(rows, last), rows[last], rest, TEXT_ADDRESS);
  }

  lemma {:induction false} RunRows(rows: seq<Row>, rest: seq<Octet>)
    requires Ordered(rows)
    ensures var end := Before(rows, |rows|);
      Run(RowsCode(rows) + rest, TEXT_ADDRESS, 1) == Prepend(Entries(rows), Run(rest, TEXT_ADDRESS + end.offset, end.line))
  {
    hide Run, RowCode, RowsCode, Ordered, Prepend, Emit;
    if rows == [] {
      RunNoRows(rest);
    } else {
      var last := |rows| - 1;
      RunLastRow(rows, rest);
      RunRows(rows[..last], RowCode(Before(rows, last), rows[last]) + rest);
      assert Before(rows[..last], last) == Before(rows, last);
      var entry := Entry(TEXT_ADDRESS + rows[last].offset, rows[last].line, false);
      PrependEmit(Entries(rows[..last]), entry, Run(rest, entry.address, entry.line));
    }
  }

  lemma RunNoRows(rest: seq<Octet>)
    ensures Run(RowsCode([]) + rest, TEXT_ADDRESS, 1) == Prepend(Entries([]), Run(rest, TEXT_ADDRESS, 1))
  {
    hide Run;
    assert RowsCode([]) + rest == rest;
    PrependNothing(Run(rest, TEXT_ADDRESS, 1));
  }

  lemma RunClosing(left: nat, address: nat, line: int)
    ensures Run(ClosingCode(left), address, line) == Some([Entry(address + left, line, true)])
  {
    var end: seq<Octet> := [0, 1, 1];
    assert UlebCode(1) == [1];
    assert [0] + UlebCode(1) + [1] == end;
    RunEnd(address + left, line);
    if left != 0 {
      RunAdvancesAddress(left, end, address, line);
    } else {
      assert ClosingCode(left) == end;
    }
  }

  lemma RunEnd(address: nat, line: int)
    ensures Run([0, 1, 1], address, line) == Some([Entry(address, line, true)])
  {
    var s: seq<Octet> := [0, 1, 1];
    assert s[1..] == [1, 1] && s[1..][1..] == [1];
    var length := ReadUleb(s[1..]);
    assert length == Read(1, [1]);
    assert length.rest[..1] == [1] && length.rest[1..] == [];
    assert Run([], 0, 1) == Some([]);
    assert [Entry(address, line, true)] + [] == [Entry(address, line, true)];
  }

  lemma RunOpening(rest: seq<Octet>)
    ensures Run(OpeningCode() + rest, 0, 1) == Run(rest, TEXT_ADDRESS, 1)
  {
    var address := LittleEndian(TEXT_ADDRESS, 8);
    var s := OpeningCode() + rest;
    assert UlebCode(9) == [9];
    assert s[1..] == [9] + ([2] + address + rest);
    assert ReadUleb(s[1..]) == Read(9, [2] + address + rest) by { assert s[1..][1..] == [2] + address + rest; }
    var length := ReadUleb(s[1..]);
    assert length.rest[..9] == [2] + address && length.rest[9..] == rest;
    assert length.rest[..9][1..] == address;
    AddressRoundTrip();
  }

  lemma AddressRoundTrip()
    ensures FromBytes(LittleEndian(TEXT_ADDRESS, 8)) == TEXT_ADDRESS
  {
    LittleEndianRoundTrip(TEXT_ADDRESS, 8);
    assert Pow256(8) > TEXT_ADDRESS by {
      assert Pow256(3) == 256 * Pow256(2) && Pow256(2) == 256 * Pow256(1) && Pow256(1) == 256;
      Pow256Grows(3, 8);
    }
  }

  lemma {:induction false} Pow256Grows(a: nat, b: nat)
    requires a <= b
    ensures Pow256(a) <= Pow256(b)
  {
    if a < b { Pow256Grows(a, b - 1); }
  }

  /**
   Running the line-number machine over the emitted program gives back exactly
   the recorded rows, in order, and ends the sequence at the end of the text.
   */
  lemma LineTableRoundTrip(rows: seq<Row>, textSize: nat)
    requires Encodable(rows, textSize)
    ensures Run(ProgramCode(rows, textSize), 0, 1)
         == Some(Entries(rows) + [Entry(TEXT_ADDRESS + textSize, rows[|rows| - 1].line, true)])
  {
    hide Run, OpeningCode, ClosingCode, RowsCode;
    var left := textSize - rows[|rows| - 1].offset;
    assert ProgramCode(rows, textSize) == OpeningCode() + (RowsCode(rows) + ClosingCode(left));
    RunOpening(RowsCode(rows) + ClosingCode(left));
    RunRows(rows, ClosingCode(left));
    RunClosing(left, TEXT_ADDRESS + rows[|rows| - 1].offset, rows[|rows| - 1].line);
  }

  /** Rows recorded during append-only emission can always be encoded, unless there are none or a line is too large. */
  lemma EmittedIsEncodable(actions: seq<Action>)
    requires Emitted(actions).Some?
    ensures var (rows, size) := Emitted(actions).value;
      Encodable(rows, size) <==> rows != [] && forall i :: 0 <= i < |rows| ==> rows[i].line <= MAX_LINE
  {
    EmittedInOrder(actions);
  }
}
