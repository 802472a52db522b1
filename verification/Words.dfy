/**
 Signed 64-bit integers, the arithmetic Kofun defines on them, and the words a
 register or a stack cell can hold.
 */
module Words {

  const TWO64: int := 0x1_0000_0000_0000_0000
  const MIN64: int := -0x8000_0000_0000_0000
  const MAX64: int := 0x7fff_ffff_ffff_ffff

  predicate Fits(n: int) {
    MIN64 <= n <= MAX64
  }

  type Int64 = n: int | -0x8000_0000_0000_0000 <= n <= 0x7fff_ffff_ffff_ffff

  /** The two's-complement reading of the low 64 bits of n. */
  function Wrap(n: int): Int64 {
    var low := n % TWO64;
    if low <= MAX64 then low else low - TWO64
  }

  /** The unsigned reading of the same 64 bits. */
  function Unsigned(n: Int64): nat {
    n % TWO64
  }

  /** Euclidean division adjusted so that the remainder has the divisor's sign. */
  function FloorDiv(a: int, b: int): int
    requires b != 0
  {
    if b > 0 || a % b == 0 then a / b else a / b - 1
  }

  function FloorMod(a: int, b: int): int
    requires b != 0
  {
    a - b * FloorDiv(a, b)
  }

  /** The quotient `idiv` and `sdiv` compute: rounded toward zero. */
  function TruncDiv(a: int, b: int): int
    requires b != 0
  {
    if a >= 0 then a / b else -((-a) / b)
  }

  function TruncMod(a: int, b: int): int
    requires b != 0
  {
    a - b * TruncDiv(a, b)
  }

  datatype TrapKind =
    | AddOverflow
    | SubtractOverflow
    | MultiplyOverflow
    | NegateOverflow
    | FloorDivideOverflow
    | FloorDivideZero
    | ModuloZero

  /**
   What one machine word can stand for. Text values are abstract; Frame and
   Return are the saved frame pointer and return address a call leaves on the
   stack; Undefined is a word nothing promises anything about.
   */
  datatype Word =
    | Int(n: Int64)
    | Text(text: string)
    | Frame(fp: int)
    | Return(pc: int)
    | Undefined

  datatype Event =
    | Print(word: Word)
    | Syscall(arguments: seq<Word>)
}
