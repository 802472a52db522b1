/** The integer print routines both back ends emit, run on their registers and their 32-byte stack buffer. */
module PrintInt {
  import opened Words

  const BUFFER: nat := 32

  // ----- decimal numerals -----

  function Digit(d: nat): char
    requires d < 10
  {
    '0' + d as char
  }

  function Digits(n: nat): (s: string)
    ensures s != []
  {
    if n < 10 then [Digit(n)] else Digits(n / 10) + [Digit(n % 10)]
  }

  /** The decimal numeral of an integer. */
  function Numeral(n: int): string {
    if n < 0 then "-" + Digits(-n) else Digits(n)
  }

  predicate IsDigit(c: char) {
    '0' <= c <= '9'
  }

  function Value(s: string): int {
    if s == [] then 0 else 10 * Value(s[..|s| - 1]) + (s[|s| - 1] as int - '0' as int)
  }

  function ReadNumeral(s: string): int {
    if s != [] && s[0] == '-' then -Value(s[1..]) else Value(s)
  }

  lemma {:induction false} DigitsAreCanonical(n: nat)
    ensures forall i :: 0 <= i < |Digits(n)| ==> IsDigit(Digits(n)[i])
    ensures Digits(n)[0] == '0' ==> n == 0
    ensures Value(Digits(n)) == n
  {
    if n >= 10 {
      DigitsAreCanonical(n / 10);
      assert Digits(n)[..|Digits(n)| - 1] == Digits(n / 10);
    } else {
      assert Digits(n)[..0] == [];
    }
  }

  /** A numeral is digits with no leading zero, behind a minus sign exactly for negative numbers, and reads back as the number. */
  lemma NumeralRoundTrip(n: int)
    ensures ReadNumeral(Numeral(n)) == n
    ensures Numeral(n)[0] == '-' <==> n < 0
    ensures n > 0 ==> Numeral(n)[0] != '0'
  {
    DigitsAreCanonical(if n < 0 then -n else n);
    if n < 0 { assert Numeral(n)[1..] == Digits(-n); }
  }

  function Pow10(k: nat): nat {
    if k == 0 then 1 else 10 * Pow10(k - 1)
  }

  lemma {:induction false} DigitsLength(n: nat, k: nat)
    requires k > 0 && n < Pow10(k)
    ensures |Digits(n)| <= k
  {
    if n >= 10 { DigitsLength(n / 10, k - 1); }
  }

  /** The magnitude of every 64-bit integer has at most nineteen digits. */
  lemma MagnitudeFits(n: nat)
    requires n <= 0x8000_0000_0000_0000
    ensures |Digits(n)| <= 19
  {
    assert Pow10(4) == 10000;
    assert Pow10(8) == 10000 * Pow10(4);
    assert Pow10(12) == 10000 * Pow10(8);
    assert Pow10(16) == 10000 * Pow10(12);
    assert Pow10(19) == 1000 * Pow10(16);
    DigitsLength(n, 19);
  }

  // ----- 64-bit registers -----

  /** `neg`. */
  function Negated(r: nat): nat {
    (TWO64 - r) % TWO64
  }

  predicate Negative(r: nat) {
    r >= 0x8000_0000_0000_0000
  }

  lemma MagnitudeOf(n: Int64)
    ensures Negative(Unsigned(n)) <==> n < 0
    ensures n < 0 ==> Negated(Unsigned(n)) + n == 0
    ensures n >= 0 ==> Unsigned(n) == n
  {
  }

  /** What the loop has still to write, in front of what it has written. */
  ghost predicate Remaining(rest: nat, written: string, all: string) {
    Digits(rest) + written == all
  }

  lemma DigitWritten(rest: nat, written: string, all: string)
    requires Remaining(rest, written, all)
    ensures rest / 10 != 0 ==> Remaining(rest / 10, [Digit(rest % 10)] + written, all)
    ensures rest / 10 == 0 ==> [Digit(rest % 10)] + written == all
  {
    if rest >= 10 {
      assert Digits(rest) + written == Digits(rest / 10) + ([Digit(rest % 10)] + written);
    }
  }

  /** Writing one byte below everything written so far. */
  method StoreBelow(buffer: array<char>, at: nat, c: char)
    requires 0 < at <= buffer.Length
    modifies buffer
    ensures buffer[at - 1..] == [c] + old(buffer[at..])
  {
    buffer[at - 1] := c;
  }

  /**
   x86-64: the value arrives in rdi, r10d is the sign flag, rsi points at the
   last byte written, and `div` works on the unsigned magnitude in rax. The
   bytes from rsi to the end of the buffer are what the one write call prints.
   */
  method PrintX64(rdi: Int64) returns (written: string)
    ensures written == Numeral(rdi) + "\n"
  {
    MagnitudeOf(rdi);
    var buffer := new char[BUFFER](_ => ' ');
    var rax := Unsigned(rdi);
    var r10 := 0;
    var rsi := BUFFER - 1;
    buffer[rsi] := '\n';
    if Negative(rax) {
      rax := Negated(rax);
      r10 := 1;
    }
    MagnitudeFits(rax);
    ghost var all := Digits(rax) + "\n";
    assert buffer[rsi..] == "\n";
    if rax == 0 {
      StoreBelow(buffer, rsi, '0');
      rsi := rsi - 1;
    } else {
      rsi := DigitLoopX64(buffer, rax);
    }
    assert buffer[rsi..] == all && rsi > 0;
    if r10 != 0 {
      StoreBelow(buffer, rsi, '-');
      rsi := rsi - 1;
      assert ['-'] + all == Numeral(rdi) + "\n";
    }
    written := buffer[rsi..];
  }

  method DigitLoopX64(buffer: array<char>, magnitude: nat) returns (rsi: nat)
    requires buffer.Length == BUFFER && buffer[BUFFER - 1..] == "\n"
    requires 0 < magnitude && |Digits(magnitude)| <= 19
    modifies buffer
    ensures 0 < rsi <= BUFFER && buffer[rsi..] == Digits(magnitude) + "\n"
  {
    hide Digits;
    ghost var all := Digits(magnitude) + "\n";
    rsi := BUFFER - 1;
    var rax, rcx, more := magnitude, 10, true;
    while more
      invariant 0 < rsi <= BUFFER - 1 && |all| <= 20
      invariant if more then Remaining(rax, buffer[rsi..], all) else buffer[rsi..] == all
      decreases rax, more
    {
      DigitWritten(rax, buffer[rsi..], all);
      RoomLeft(rax, buffer[rsi..], all);
      var rdx := rax % rcx;
      rax := rax / rcx;
      StoreBelow(buffer, rsi, rdx as char + '0');
      rsi := rsi - 1;
      more := rax != 0;
    }
  }

  /** As long as a digit is missing there is room for it and for a sign. */
  lemma RoomLeft(rest: nat, written: string, all: string)
    requires Remaining(rest, written, all) && |all| <= 20
    ensures |written| < 20
  {
  }

  /**
   AArch64: the value arrives in x0, x10 is the sign flag, x9 points at the
   last byte written; `udiv` and `msub` give quotient and remainder.
   */
  method PrintA64(x0: Int64) returns (written: string)
    ensures written == Numeral(x0) + "\n"
  {
    MagnitudeOf(x0);
    var buffer := new char[BUFFER](_ => ' ');
    var x11, x10 := Unsigned(x0), 0;
    var x9 := BUFFER - 1;
    buffer[x9] := '\n';
    if Negative(x11) {
      x11 := Negated(x11);
      x10 := 1;
    }
    MagnitudeFits(x11);
    ghost var all := Digits(x11) + "\n";
    assert buffer[x9..] == "\n";
    if x11 != 0 {
      x9 := DigitLoopA64(buffer, x11);
    } else {
      StoreBelow(buffer, x9, '0');
      x9 := x9 - 1;
    }
    assert buffer[x9..] == all && x9 > 0;
    if x10 != 0 {
      StoreBelow(buffer, x9, '-');
      x9 := x9 - 1;
      assert ['-'] + all == Numeral(x0) + "\n";
    }
    written := buffer[x9..];
  }

  method DigitLoopA64(buffer: array<char>, magnitude: nat) returns (x9: nat)
    requires buffer.Length == BUFFER && buffer[BUFFER - 1..] == "\n"
    requires 0 < magnitude < TWO64 && |Digits(magnitude)| <= 19
    modifies buffer
    ensures 0 < x9 <= BUFFER && buffer[x9..] == Digits(magnitude) + "\n"
  {
    hide Digits;
    ghost var all := Digits(magnitude) + "\n";
    x9 := BUFFER - 1;
    var x11: nat, x13, more := magnitude, 10, true;
    while more
      invariant 0 < x9 <= BUFFER - 1 && |all| <= 20 && x11 < TWO64
      invariant if more then Remaining(x11, buffer[x9..], all) else buffer[x9..] == all
      decreases x11, more
    {
      DigitWritten(x11, buffer[x9..], all);
      RoomLeft(x11, buffer[x9..], all);
      var x12 := x11 / x13;
      var x14 := (x11 - x12 * x13) % TWO64;
      x14 := x14 + '0' as int;
      StoreBelow(buffer, x9, x14 as char);
      x9 := x9 - 1;
      x11 := x12;
      more := x11 != 0;
    }
  }
}
