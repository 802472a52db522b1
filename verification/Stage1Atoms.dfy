/**
 The atoms of Stage 1 expressions: numerals, which are compared with a bound
 digit by digit, and quoted texts.
 */
module Stage1Atoms {
  import opened Wrappers
  import opened Stage1Scanning
  import opened Stage1Typing

  // ----- characters -----

  const DIGITS: string := "0123456789"
  const SMALL: string := "abcdefghijklmnopqrstuvwxyz"
  const CAPITAL: string := "ABCDEFGHIJKLMNOPQRSTUVWXYZ"

  /** The letters and digits a name is made of; a byte of a longer character counts as a letter. */
  lemma NameCharacters(c: char)
    ensures IsDigit(c) <==> c in DIGITS
    ensures IsIdentifier(c) <==> c in SMALL || c in CAPITAL || c in DIGITS || c == '_' || c as int >= 128
  {
    InRun(c, '0', DIGITS);
    InRun(c, 'a', SMALL);
    InRun(c, 'A', CAPITAL);
  }

  lemma InRun(c: char, first: char, run: string)
    requires forall i :: 0 <= i < |run| ==> run[i] as int == first as int + i
    ensures c in run <==> first as int <= c as int < first as int + |run|
  {
    if first as int <= c as int < first as int + |run| { assert run[c as int - first as int] == c; }
  }

  lemma SpaceCharacters(c: char)
    ensures IsSpace(c) <==> c in [' ', '\t', '\n', 11 as char, 12 as char, '\r']
  {}

  // ----- numerals -----

  predicate Digits(s: string) {
    forall i :: 0 <= i < |s| ==> IsDigit(s[i])
  }

  /** The decimal digits of a number, behind any number of zeros. */
  function Numeral(n: nat, zeros: nat): (s: string)
    ensures AllDigits(s) && Value(s) == n
  {
    if n >= 10 then
      var front := Numeral(n / 10, zeros);
      DigitBehind(front, DIGITS[n % 10]);
      front + [DIGITS[n % 10]]
    else if zeros > 0 then
      var front := Numeral(0, zeros - 1);
      DigitBehind(front, DIGITS[n]);
      front + [DIGITS[n]]
    else
      DigitBehind([], DIGITS[n]);
      [] + [DIGITS[n]]
  }

  lemma DigitBehind(s: string, c: char)
    ensures Value(s + [c]) == 10 * Value(s) + (c as int - '0' as int)
  {
    assert (s + [c])[..|s|] == s;
  }

  /** A numeral is an Int exactly when its number is a signed 64-bit one. */
  lemma NumeralTyped(n: nat, zeros: nat, b: Bound)
    ensures AtomKind(Numeral(n, zeros), b) == if n < 0x8000_0000_0000_0000 then Some(IntKind) else None
  {
    var s := Numeral(n, zeros);
    assert IsDigit(s[0]) && IsDigit(s[|s| - 1]);
  }

  lemma {:induction false} LeadingZero(s: string)
    requires s != [] && s[0] == '0'
    ensures Value(s) == Value(s[1..])
  {
    if |s| == 1 {
      assert s[..0] == [] && s[1..] == [];
    } else {
      LeadingZero(s[..|s| - 1]);
      assert s[1..][..|s| - 2] == s[..|s| - 1][1..];
    }
  }

  lemma {:induction false} Positive(s: string)
    requires Digits(s) && s != [] && s[0] != '0'
    ensures Value(s) > 0
  {
    if |s| > 1 {
      Positive(s[..|s| - 1]);
    } else {
      assert s[..0] == [];
    }
  }

  lemma {:induction false} ShorterIsLess(s: string, t: string)
    requires Digits(s) && Digits(t) && |s| < |t| && t[0] != '0'
    ensures Value(s) < Value(t)
  {
    if s == [] {
      Positive(t);
    } else {
      ShorterIsLess(s[..|s| - 1], t[..|t| - 1]);
    }
  }

  lemma {:induction false} FirstDifference(s: string, t: string, i: nat)
    requires Digits(s) && Digits(t) && |s| == |t| && i < |s| && s[..i] == t[..i] && s[i] < t[i]
    ensures Value(s) < Value(t)
  {
    var n := |s| - 1;
    if i < n {
      assert s[..n][..i] == s[..i] && t[..n][..i] == t[..i];
      FirstDifference(s[..n], t[..n], i);
    }
  }

  /** Whether a numeral is at most another that has no leading zero. */
  method WithinBound(digits: string, limit: string) returns (within: bool)
    requires AllDigits(digits) && AllDigits(limit) && limit[0] != '0'
    ensures within == (Value(digits) <= Value(limit))
  {
    var start := 0;
    while start + 1 < |digits| && digits[start] == '0'
      invariant start < |digits| && Value(digits[start..]) == Value(digits)
    {
      LeadingZero(digits[start..]);
      assert digits[start..][1..] == digits[start + 1..];
      start := start + 1;
    }
    ghost var rest := digits[start..];
    var significant := |digits| - start;
    if significant != |limit| {
      if significant < |limit| { ShorterIsLess(rest, limit); } else { ShorterIsLess(limit, rest); }
      return significant < |limit|;
    }
    var index := 0;
    while index < |limit|
      invariant 0 <= index <= |limit| && rest[..index] == limit[..index]
    {
      if digits[start + index] != limit[index] {
        if digits[start + index] < limit[index] {
          FirstDifference(rest, limit, index);
        } else {
          FirstDifference(limit, rest, index);
        }
        return digits[start + index] < limit[index];
      }
      index := index + 1;
    }
    assert rest == limit;
    within := true;
  }

  method CheckDigits(s: string) returns (ok: bool)
    ensures ok == AllDigits(s)
  {
    if s == [] { return false; }
    for index := 0 to |s|
      invariant Digits(s[..index])
    {
      if !IsDigit(s[index]) { return false; }
      assert s[..index + 1] == s[..index] + [s[index]];
    }
    assert s[..|s|] == s;
    ok := true;
  }

  // ----- quoted texts -----

  /** A character as it stands, or one of the three escapes. */
  predicate IsUnit(u: string) {
    (|u| == 1 && u[0] != '"' && u[0] != '\\') || u == "\\n" || u == "\\\"" || u == "\\\\"
  }

  predicate AllUnits(units: seq<string>) {
    forall i :: 0 <= i < |units| ==> IsUnit(units[i])
  }

  function Flat(units: seq<string>): string {
    if units == [] then [] else units[0] + Flat(units[1..])
  }

  function Quoted(units: seq<string>): string {
    "\"" + Flat(units) + "\""
  }

  /** Every run of characters and escapes between quotes is a Text. */
  lemma TextTyped(units: seq<string>, b: Bound)
    requires AllUnits(units)
    ensures AtomKind(Quoted(units), b) == Some(TextKind)
  {
    UnitsAccepted(Quoted(units), 1, units);
  }

  lemma {:induction false} UnitsAccepted(x: string, i: nat, units: seq<string>)
    requires AllUnits(units) && i < |x| && x[i..] == Flat(units) + "\""
    ensures LiteralFrom(x, i, false)
    decreases |units|
  {
    if units != [] {
      var u := units[0];
      assert x[i..] == u + (Flat(units[1..]) + "\"");
      assert x[i] == u[0];
      if |u| == 2 { assert x[i + 1] == u[1]; }
      assert x[i + |u|..] == x[i..][|u|..];
      UnitsAccepted(x, i + |u|, units[1..]);
    }
  }

  /** Nothing else that begins and ends with a quote is typed at all. */
  lemma TextDecodes(x: string, b: Bound) returns (units: seq<string>)
    requires |x| >= 2 && x[0] == '"' && x[|x| - 1] == '"' && AtomKind(x, b).Some?
    ensures AllUnits(units) && x == Quoted(units)
  {
    units := UnitsFrom(x, 1);
    assert x == [x[0]] + x[1..];
  }

  lemma {:induction false} UnitsFrom(x: string, i: nat) returns (units: seq<string>)
    requires i < |x| && LiteralFrom(x, i, false) && x[|x| - 1] == '"'
    ensures AllUnits(units) && x[i..] == Flat(units) + "\""
    decreases |x| - i
  {
    if i == |x| - 1 {
      units := [];
    } else {
      var length := if x[i] == '\\' then 2 else 1;
      var u := x[i..i + length];
      var rest := UnitsFrom(x, i + length);
      units := [u] + rest;
      assert units[1..] == rest && x[i..] == u + x[i + length..];
    }
  }

  method CheckLiteral(x: string) returns (ok: bool)
    requires |x| >= 2
    ensures ok == LiteralFrom(x, 1, false)
  {
    var escaped := false;
    var index := 1;
    while index < |x| - 1
      invariant 1 <= index <= |x| - 1 && LiteralFrom(x, 1, false) == LiteralFrom(x, index, escaped)
    {
      if escaped {
        if x[index] != 'n' && x[index] != '"' && x[index] != '\\' { return false; }
        escaped := false;
      } else if x[index] == '\\' {
        escaped := true;
      } else if x[index] == '"' {
        return false;
      }
      index := index + 1;
    }
    ok := !escaped;
  }

  // ----- an atom -----

  lemma {:induction false} LeadingDigit(n: nat)
    requires n > 0
    ensures Numeral(n, 0)[0] != '0'
  {
    if n >= 10 { LeadingDigit(n / 10); }
  }

  /** The kind of an atom, found by the scans the source makes. */
  method LowerAtom(atom: string, b: Bound) returns (kind: Option<Kind>)
    ensures kind == AtomKind(atom, b)
  {
    hide LiteralFrom, Value;
    if |atom| >= 2 && atom[0] == '"' && atom[|atom| - 1] == '"' {
      var whole := CheckLiteral(atom);
      return if whole then Some(TextKind) else None;
    }
    var number := CheckDigits(atom);
    if number {
      LeadingDigit(MAX_LITERAL);
      var within := WithinBound(atom, Numeral(MAX_LITERAL, 0));
      return if within then Some(IntKind) else None;
    }
    if atom == "true" || atom == "false" { return Some(BoolKind); }
    if !ValidName(atom) { return None; }
    kind := b.kindOf(atom);
  }
}
