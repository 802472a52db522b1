/**
 The scanning loops of the Stage 1 compiler: operator splits at the top level
 of brackets and quotes, whole-string parentheses, postfix indexing and call
 arguments. A text is a string of bytes.
 */
module Stage1Scanning {
  import opened Wrappers

  // ----- characters -----

  predicate IsSpace(c: char) {
    c == ' ' || (9 as char <= c <= 13 as char)
  }

  predicate IsDigit(c: char) {
    '0' <= c <= '9'
  }

  predicate IsIdentifier(c: char) {
    c >= 128 as char || IsDigit(c) || 'a' <= c <= 'z' || 'A' <= c <= 'Z' || c == '_'
  }

  predicate ValidName(name: string) {
    name != [] && !IsDigit(name[0]) && forall i :: 0 <= i < |name| ==> IsIdentifier(name[i])
  }

  // ----- trimming -----

  /** How many characters of a prefix are leading spaces. */
  function Leading(e: string): (n: nat)
    ensures n <= |e| && forall i :: 0 <= i < n ==> IsSpace(e[i])
    ensures n < |e| ==> !IsSpace(e[n])
  {
    if e != [] && IsSpace(e[0]) then 1 + Leading(e[1..]) else 0
  }

  /** The text without its trailing spaces. */
  function Trimmed(e: string): (t: string)
    ensures t <= e && forall i :: |t| <= i < |e| ==> IsSpace(e[i])
    ensures t != [] ==> !IsSpace(t[|t| - 1])
  {
    if e != [] && IsSpace(e[|e| - 1]) then Trimmed(e[..|e| - 1]) else e
  }

  function Trim(e: string): (t: string)
    ensures |t| <= |e|
  {
    Trimmed(e[Leading(e)..])
  }

  // ----- the scan state -----

  datatype Scan = Scan(depth: int, quoted: bool, escaped: bool)

  const START := Scan(0, false, false)

  predicate IsBracket(c: char) {
    c == '"' || c == '(' || c == '[' || c == ')' || c == ']'
  }

  /** One character: escapes inside quotes, nesting outside. */
  function After(s: Scan, c: char): Scan {
    if s.quoted then
      if s.escaped then s.(escaped := false)
      else if c == '\\' then s.(escaped := true)
      else if c == '"' then s.(quoted := false)
      else s
    else if c == '"' then s.(quoted := true)
    else if c == '(' || c == '[' then s.(depth := s.depth + 1)
    else if c == ')' || c == ']' then s.(depth := s.depth - 1)
    else s
  }

  /** The state before the i-th character. */
  function StateAt(e: string, i: nat): Scan
    requires i <= |e|
  {
    if i == 0 then START else After(StateAt(e, i - 1), e[i - 1])
  }

  /** Outside quotes and brackets, on a character that is neither. */
  predicate AtTop(e: string, i: nat)
    requires i < |e|
  {
    !StateAt(e, i).quoted && StateAt(e, i).depth == 0 && !IsBracket(e[i])
  }

  predicate EndsOperand(c: char) {
    c == ')' || c == ']' || c == '"' || IsIdentifier(c)
  }

  /** The nearest character before i that is not a space ends an operand. */
  predicate PrecededByOperand(e: string, i: nat)
    requires i <= |e|
  {
    if i == 0 then false
    else if IsSpace(e[i - 1]) then PrecededByOperand(e, i - 1)
    else EndsOperand(e[i - 1])
  }

  // ----- operators -----

  datatype Operators = Symbols(symbols: string) | Words(words: seq<string>)

  const OR := Words(["||"])
  const AND := Words(["&&"])
  const EQUALITY := Words(["==", "!="])
  const ORDERING := Words(["<=", ">=", "<", ">"])
  const ADDITIVE := Symbols("+-")
  const MULTIPLICATIVE := Symbols("*%/")

  /** A listed symbol, or a listed word of two characters or one, starts here. */
  predicate Listed(e: string, ops: Operators, i: nat)
    requires i < |e|
  {
    match ops
    case Symbols(symbols) => e[i] in symbols
    case Words(words) => (i + 2 <= |e| && e[i..i + 2] in words) || [e[i]] in words
  }

  predicate OperatorAt(e: string, ops: Operators, i: nat)
    requires i < |e|
  {
    AtTop(e, i) && PrecededByOperand(e, i) && Listed(e, ops, i)
  }

  /** The last operator before a bound, or -1. */
  function LastBefore(e: string, ops: Operators, bound: nat): (k: int)
    requires bound <= |e|
    ensures -1 <= k < bound
    ensures k >= 0 ==> OperatorAt(e, ops, k)
    ensures forall i :: k < i < bound ==> !OperatorAt(e, ops, i)
  {
    if bound == 0 then -1
    else if OperatorAt(e, ops, bound - 1) then bound - 1
    else LastBefore(e, ops, bound - 1)
  }

  function Split(e: string, ops: Operators): int {
    LastBefore(e, ops, |e|)
  }

  /** The backward walk to the previous operand. */
  method Preceded(e: string, index: nat) returns (operand: bool)
    requires index <= |e|
    ensures operand == PrecededByOperand(e, index)
  {
    var cursor := index - 1;
    while cursor >= 0
      invariant -1 <= cursor < |e|
      invariant PrecededByOperand(e, cursor + 1) == PrecededByOperand(e, index)
      decreases cursor
    {
      if !IsSpace(e[cursor]) { return EndsOperand(e[cursor]); }
      cursor := cursor - 1;
    }
    operand := false;
  }

  // ----- the validator's own test for a sign -----

  /** Some character before i ends an operand, whatever stands between. */
  predicate FollowsOperand(e: string, i: nat)
    requires i <= |e|
  {
    i > 0 && (EndsOperand(e[i - 1]) || FollowsOperand(e, i - 1))
  }

  /** A top-level plus or minus with an operand's end anywhere before it. */
  predicate SignAt(e: string, i: nat)
    requires i < |e|
  {
    AtTop(e, i) && (e[i] == '+' || e[i] == '-') && FollowsOperand(e, i)
  }

  /** The last sign before a bound, or -1. */
  function LastSign(e: string, bound: nat): (k: int)
    requires bound <= |e|
    ensures -1 <= k < bound
    ensures k >= 0 ==> SignAt(e, k)
    ensures forall i :: k < i < bound ==> !SignAt(e, i)
  {
    if bound == 0 then -1
    else if SignAt(e, bound - 1) then bound - 1
    else LastSign(e, bound - 1)
  }

  /** The validator's backward walk: it goes on until it meets the end of an operand. */
  method LooksBack(e: string, index: nat) returns (preceded: bool)
    requires index <= |e|
    ensures preceded == FollowsOperand(e, index)
  {
    var cursor := index - 1;
    preceded := false;
    while cursor >= 0 && !preceded
      invariant -1 <= cursor < |e|
      invariant FollowsOperand(e, index) == (preceded || FollowsOperand(e, cursor + 1))
      decreases cursor
    {
      var previous := e[cursor];
      if !IsSpace(previous) {
        preceded := previous == ')' || previous == ']' || previous == '"' || IsIdentifier(previous);
      }
      cursor := cursor - 1;
    }
  }

  // ----- the splitting loops -----

  /** The one scan behind both splitting loops: it remembers the last operator it passes. */
  method FindSplit(e: string, ops: Operators) returns (found: int)
    ensures found == Split(e, ops)
  {
    var depth, quoted, escaped := 0, false, false;
    found := -1;
    var index := 0;
    while index < |e|
      invariant 0 <= index <= |e|
      invariant StateAt(e, index) == Scan(depth, quoted, escaped)
      invariant found == LastBefore(e, ops, index)
    {
      var symbol := e[index];
      if quoted {
        if escaped {
          escaped := false;
        } else if symbol == '\\' {
          escaped := true;
        } else if symbol == '"' {
          quoted := false;
        }
      } else if symbol == '"' {
        quoted := true;
      } else if symbol == '(' || symbol == '[' {
        depth := depth + 1;
      } else if symbol == ')' || symbol == ']' {
        depth := depth - 1;
      } else if depth == 0 && Listed(e, ops, index) {
        var operand := Preceded(e, index);
        if operand { found := index; }
      }
      index := index + 1;
    }
  }

  // ----- cutting a text does not change what its pieces mean -----

  lemma {:induction false} PrefixState(e: string, k: nat, i: nat)
    requires i <= k <= |e|
    ensures StateAt(e[..k], i) == StateAt(e, i) && PrecededByOperand(e[..k], i) == PrecededByOperand(e, i)
  {
    if i > 0 { PrefixState(e, k, i - 1); }
  }

  /** A prefix has no operator the whole text does not have. */
  lemma PrefixOperator(e: string, ops: Operators, k: nat, i: nat)
    requires i < k <= |e|
    ensures OperatorAt(e[..k], ops, i) ==> OperatorAt(e, ops, i)
    ensures ops.Symbols? ==> (OperatorAt(e[..k], ops, i) <==> OperatorAt(e, ops, i))
  {
    PrefixState(e, k, i);
    if i + 2 <= k { assert e[..k][i..i + 2] == e[i..i + 2]; }
  }

  lemma {:induction false} PrefixFollows(e: string, k: nat, i: nat)
    requires i <= k <= |e|
    ensures FollowsOperand(e[..k], i) == FollowsOperand(e, i)
  {
    if i > 0 { PrefixFollows(e, k, i - 1); }
  }

  /** A prefix has exactly the signs of the whole text that the validator would cut at. */
  lemma PrefixSign(e: string, k: nat, i: nat)
    requires i < k <= |e|
    ensures SignAt(e[..k], i) <==> SignAt(e, i)
  {
    PrefixState(e, k, i);
    PrefixFollows(e, k, i);
  }

  /** Spaces are no signs. */
  lemma {:induction false} SpacesAreNoSigns(e: string, b: nat, k: nat)
    requires b <= k <= |e| && forall i :: b <= i < k ==> IsSpace(e[i])
    ensures LastSign(e, k) == LastSign(e, b)
  {
    if b < k {
      assert IsSpace(e[k - 1]);
      SpacesAreNoSigns(e, b, k - 1);
    }
  }

  /** What the nearest character shows, an earlier one shows as well. */
  lemma {:induction false} PrecededFollows(e: string, i: nat)
    requires i <= |e| && PrecededByOperand(e, i)
    ensures FollowsOperand(e, i)
  {
    if IsSpace(e[i - 1]) { PrecededFollows(e, i - 1); }
  }

  /** An operator of the splitter is a sign of the validator. */
  lemma OperatorIsSign(e: string, i: nat)
    requires i < |e| && OperatorAt(e, ADDITIVE, i)
    ensures SignAt(e, i)
  {
    PrecededFollows(e, i);
  }

  // ----- parentheses around the whole text -----

  datatype Quotes = Quotes(quoted: bool, escaped: bool)

  const UNQUOTED := Quotes(false, false)

  function AfterQuotes(q: Quotes, c: char): Quotes {
    if q.quoted then
      if q.escaped then q.(escaped := false)
      else if c == '\\' then q.(escaped := true)
      else if c == '"' then q.(quoted := false)
      else q
    else if c == '"' then q.(quoted := true)
    else q
  }

  /** Whether the parenthesis opened first is closed by the last character. */
  function ClosesAtEnd(e: string, i: nat, depth: int, q: Quotes): bool
    requires i <= |e|
    decreases |e| - i
  {
    if i == |e| then false
    else if q.quoted || e[i] == '"' then ClosesAtEnd(e, i + 1, depth, AfterQuotes(q, e[i]))
    else if e[i] == '(' then ClosesAtEnd(e, i + 1, depth + 1, q)
    else if e[i] == ')' then if depth - 1 == 0 then i == |e| - 1 else ClosesAtEnd(e, i + 1, depth - 1, q)
    else ClosesAtEnd(e, i + 1, depth, q)
  }

  predicate WrapsWhole(e: string) {
    |e| >= 2 && e[0] == '(' && ClosesAtEnd(e, 0, 0, UNQUOTED)
  }

  method CheckWrapsWhole(e: string) returns (whole: bool)
    ensures whole == WrapsWhole(e)
  {
    if |e| < 2 || e[0] != '(' { return false; }
    var depth, quoted, escaped := 0, false, false;
    var index := 0;
    while index < |e|
      invariant 0 <= index <= |e|
      invariant ClosesAtEnd(e, 0, 0, UNQUOTED) == ClosesAtEnd(e, index, depth, Quotes(quoted, escaped))
    {
      var symbol := e[index];
      if quoted {
        if escaped {
          escaped := false;
        } else if symbol == '\\' {
          escaped := true;
        } else if symbol == '"' {
          quoted := false;
        }
      } else if symbol == '"' {
        quoted := true;
      } else if symbol == '(' {
        depth := depth + 1;
      } else if symbol == ')' {
        depth := depth - 1;
        if depth == 0 { return index == |e| - 1; }
      }
      index := index + 1;
    }
    whole := false;
  }

  // ----- postfix indexing -----

  datatype Nesting = Nesting(parens: int, brackets: int, q: Quotes)

  const FLAT := Nesting(0, 0, UNQUOTED)

  function AfterNesting(n: Nesting, c: char): Nesting {
    if n.q.quoted || c == '"' then n.(q := AfterQuotes(n.q, c))
    else if c == '(' then n.(parens := n.parens + 1)
    else if c == ')' then n.(parens := n.parens - 1)
    else if c == '[' then n.(brackets := n.brackets + 1)
    else if c == ']' then n.(brackets := n.brackets - 1)
    else n
  }

  function NestingAt(e: string, i: nat): Nesting
    requires i <= |e|
  {
    if i == 0 then FLAT else AfterNesting(NestingAt(e, i - 1), e[i - 1])
  }

  predicate OpensIndex(e: string, i: nat)
    requires i < |e|
  {
    NestingAt(e, i).parens == 0 && NestingAt(e, i).brackets == 0 && !NestingAt(e, i).q.quoted && e[i] == '['
  }

  /** The last bracket opened outside everything before a bound, or -1. */
  function LastOpen(e: string, bound: nat): (k: int)
    requires bound <= |e|
    ensures -1 <= k < bound && (k >= 0 ==> e[k] == '[')
  {
    if bound == 0 then -1 else if OpensIndex(e, bound - 1) then bound - 1 else LastOpen(e, bound - 1)
  }

  /** Whether the brackets go below zero by unquoted closing ones before a bound. */
  predicate Underflows(e: string, bound: nat)
    requires bound <= |e|
  {
    exists i :: 0 <= i < bound && ClosesTooMany(e, i)
  }

  predicate ClosesTooMany(e: string, i: nat)
    requires i < |e|
  {
    !NestingAt(e, i).q.quoted && e[i] == ']' && NestingAt(e, i + 1).brackets < 0
  }

  /** Where the index of a postfix-indexed text opens, or -1. */
  function PostfixIndex(e: string): (k: int)
    ensures k >= -1 && (k >= 0 ==> k < |e| - 1)
  {
    if |e| < 3 || e[|e| - 1] != ']' then -1
    else if Underflows(e, |e|) then -1
    else if NestingAt(e, |e|).parens != 0 || NestingAt(e, |e|).brackets != 0 then -1
    else LastOpen(e, |e|)
  }

  method FindPostfixIndex(e: string) returns (found: int)
    ensures found == PostfixIndex(e)
  {
    if |e| < 3 || e[|e| - 1] != ']' { return -1; }
    var parens, brackets, quoted, escaped := 0, 0, false, false;
    found := -1;
    var index := 0;
    while index < |e|
      invariant 0 <= index <= |e|
      invariant NestingAt(e, index) == Nesting(parens, brackets, Quotes(quoted, escaped))
      invariant !Underflows(e, index) && found == LastOpen(e, index)
    {
      var symbol := e[index];
      if quoted {
        if escaped {
          escaped := false;
        } else if symbol == '\\' {
          escaped := true;
        } else if symbol == '"' {
          quoted := false;
        }
      } else if symbol == '"' {
        quoted := true;
      } else if symbol == '(' {
        parens := parens + 1;
      } else if symbol == ')' {
        parens := parens - 1;
      } else if symbol == '[' {
        if parens == 0 && brackets == 0 { found := index; }
        brackets := brackets + 1;
      } else if symbol == ']' {
        brackets := brackets - 1;
        if brackets < 0 {
          assert ClosesTooMany(e, index);
          return -1;
        }
      }
      index := index + 1;
    }
    if parens != 0 || brackets != 0 { found := -1; }
  }

  // ----- calls -----

  /** The text before the first parenthesis, if there is one. */
  function CallHead(e: string): (head: Option<string>)
    ensures head.Some? ==> |head.value| < |e| && head.value <= e && e[|head.value|] == '('
    ensures head.Some? ==> '(' !in head.value
    ensures head.None? ==> '(' !in e
  {
    if e == [] then None
    else if e[0] == '(' then Some([])
    else
      var rest := CallHead(e[1..]);
      if rest.Some? then Some([e[0]] + rest.value) else None
  }

  predicate Separates(e: string, i: nat)
    requires i < |e|
  {
    NestingAt(e, i) == FLAT && e[i] == ','
  }

  /** Positions of the separating commas before a bound. */
  function Commas(e: string, bound: nat): (cs: seq<nat>)
    requires bound <= |e|
    ensures forall k :: 0 <= k < |cs| ==> cs[k] < bound
    ensures forall j, k :: 0 <= j < k < |cs| ==> cs[j] < cs[k]
  {
    if bound == 0 then [] else Commas(e, bound - 1) + if Separates(e, bound - 1) then [bound - 1] else []
  }

  predicate Negative(e: string, bound: nat)
    requires bound <= |e|
  {
    exists i :: 0 < i <= bound && (NestingAt(e, i).parens < 0 || NestingAt(e, i).brackets < 0)
  }

  /** The argument text of a call whose head has the given length, parentheses removed. */
  function CallBody(e: string, head: nat): (body: string)
    requires head <= |e|
    ensures |body| < |e| || e == []
  {
    var p := e[head..];
    if |p| >= 2 then p[1..|p| - 1] else []
  }

  function Arity(e: string, head: nat): (n: int)
    requires head <= |e|
    ensures n >= -1
  {
    if !WrapsWhole(e[head..]) then -1
    else
      var body := CallBody(e, head);
      var end := NestingAt(body, |body|);
      if Trim(body) == [] then 0
      else if Negative(body, |body|) || end.q.quoted || end.parens != 0 || end.brackets != 0 then -1
      else 1 + |Commas(body, |body|)|
  }

  method CallArity(e: string, head: nat) returns (arity: int)
    requires head <= |e|
    ensures arity == Arity(e, head)
  {
    var wraps := CheckWrapsWhole(e[head..]);
    if !wraps { return -1; }
    var body := CallBody(e, head);
    if Trim(body) == [] { return 0; }
    var parens, brackets, quoted, escaped := 0, 0, false, false;
    arity := 1;
    var index := 0;
    while index < |body|
      invariant 0 <= index <= |body|
      invariant NestingAt(body, index) == Nesting(parens, brackets, Quotes(quoted, escaped))
      invariant escaped ==> quoted
      invariant !Negative(body, index) && arity == 1 + |Commas(body, index)|
    {
      var symbol := body[index];
      if quoted {
        if escaped {
          escaped := false;
        } else if symbol == '\\' {
          escaped := true;
        } else if symbol == '"' {
          quoted := false;
        }
      } else if symbol == '"' {
        quoted := true;
      } else if symbol == '(' {
        parens := parens + 1;
      } else if symbol == ')' {
        parens := parens - 1;
      } else if symbol == '[' {
        brackets := brackets + 1;
      } else if symbol == ']' {
        brackets := brackets - 1;
      } else if symbol == ',' && parens == 0 && brackets == 0 {
        arity := arity + 1;
      }
      index := index + 1;
      if parens < 0 || brackets < 0 { return -1; }
    }
    if quoted || parens != 0 || brackets != 0 { arity := -1; }
  }

  /** Where the argument after the last comma before a bound begins. */
  function Begin(e: string, bound: nat): (n: nat)
    requires bound <= |e|
    ensures n <= bound
  {
    var cs := Commas(e, bound);
    if cs == [] then 0 else cs[|cs| - 1] + 1
  }

  /** The k-th piece of a text between its separating commas. */
  function Piece(body: string, k: nat): (p: string)
    requires k <= |Commas(body, |body|)|
    ensures |p| <= |body|
  {
    var cs := Commas(body, |body|);
    var start := if k == 0 then 0 else cs[k - 1] + 1;
    var end := if k < |cs| then cs[k] else |body|;
    body[start..end]
  }

  /** The k-th argument of a call, trimmed; nothing when the call has no such argument. */
  function Argument(e: string, head: nat, k: int): (a: string)
    requires head <= |e|
    ensures |a| < |e| || (a == [] && e == [])
  {
    if k < 0 || k >= Arity(e, head) then [] else Trim(Piece(CallBody(e, head), k))
  }

  method CallArgument(e: string, head: nat, target: int) returns (a: string)
    requires head <= |e|
    ensures a == Argument(e, head, target)
  {
    var arity := CallArity(e, head);
    if target < 0 || target >= arity { return []; }
    hide Commas, Trim, Begin, Piece, Arity, AtPiece;
    var body := CallBody(e, head);
    FirstPiece(body);
    var parens, brackets, quoted, escaped := 0, 0, false, false;
    var current, start := 0, 0;
    var index := 0;
    while index < |body|
      invariant 0 <= index <= |body|
      invariant NestingAt(body, index) == Nesting(parens, brackets, Quotes(quoted, escaped))
      invariant escaped ==> quoted
      invariant AtPiece(body, index, current, start) && current <= target
    {
      var symbol := body[index];
      PieceStep(body, index, current, start);
      if quoted {
        if escaped {
          escaped := false;
        } else if symbol == '\\' {
          escaped := true;
        } else if symbol == '"' {
          quoted := false;
        }
      } else if symbol == '"' {
        quoted := true;
      } else if symbol == '(' {
        parens := parens + 1;
      } else if symbol == ')' {
        parens := parens - 1;
      } else if symbol == '[' {
        brackets := brackets + 1;
      } else if symbol == ']' {
        brackets := brackets - 1;
      } else if symbol == ',' && parens == 0 && brackets == 0 {
        if current == target {
          PieceFound(body, index, current, start);
          return Trim(body[start..index]);
        }
        current := current + 1;
        start := index + 1;
      }
      index := index + 1;
    }
    ArityBound(e, head);
    LastPiece(body, current, start);
    a := Trim(body[start..]);
  }

  /** The scan stands at place i, in the piece numbered `current` that begins at `start`. */
  ghost predicate AtPiece(body: string, i: nat, current: nat, start: nat)
    requires i <= |body|
  {
    current == |Commas(body, i)| && start == Begin(body, i)
  }

  lemma FirstPiece(body: string)
    ensures AtPiece(body, 0, 0, 0)
  {
  }

  lemma PieceStep(body: string, i: nat, current: nat, start: nat)
    requires i < |body| && AtPiece(body, i, current, start)
    ensures if Separates(body, i) then AtPiece(body, i + 1, current + 1, i + 1) else AtPiece(body, i + 1, current, start)
  {
    hide Separates;
  }

  lemma PieceFound(body: string, i: nat, k: nat, start: nat)
    requires i < |body| && Separates(body, i) && AtPiece(body, i, k, start)
    ensures k <= |Commas(body, |body|)| && start <= i && Piece(body, k) == body[start..i]
  {
    hide Commas, Piece;
    PieceEnds(body, i);
  }

  lemma PieceEnds(body: string, i: nat)
    requires i < |body| && Separates(body, i)
    ensures |Commas(body, i)| < |Commas(body, |body|)|
    ensures Piece(body, |Commas(body, i)|) == body[Begin(body, i)..i]
  {
    CommasExtend(body, i);
    CommasExtend(body, i + 1);
    var cs := Commas(body, |body|);
    var k := |Commas(body, i)|;
    assert Commas(body, i + 1) == Commas(body, i) + [i];
    assert cs[k] == Commas(body, i + 1)[k];
    if k > 0 { assert cs[k - 1] == Commas(body, i)[k - 1]; }
  }

  lemma LastPiece(body: string, k: nat, start: nat)
    requires AtPiece(body, |body|, k, start)
    ensures k == |Commas(body, |body|)| && start <= |body| && Piece(body, k) == body[start..]
  {
  }

  lemma ArityBound(e: string, head: nat)
    requires head <= |e| && Arity(e, head) > 0
    ensures Arity(e, head) == 1 + |Commas(CallBody(e, head), |CallBody(e, head)|)|
  {
  }

  /** The commas before a bound are the first of all. */
  lemma {:induction false} CommasExtend(e: string, bound: nat)
    requires bound <= |e|
    ensures Commas(e, bound) <= Commas(e, |e|)
    decreases |e| - bound
  {
    if bound < |e| {
      CommasExtend(e, bound + 1);
      assert Commas(e, bound) <= Commas(e, bound + 1);
    }
  }
}
