/**
 Two typings of one expression language: the validator's, which reads additive
 chains left to right and cuts at every sign, and the lowerer's, which splits
 them at the rightmost operator and lowers both halves again.
 */
module Stage1Typing {
  import opened Wrappers
  import opened Stage1Scanning

  datatype Kind = IntKind | BoolKind | TextKind | ListKind | VoidKind

  /** A found signature; without a result when what was found is a variable's entry. */
  datatype Signature = Signature(result: Option<Kind>, parameters: seq<Kind>)

  /** What is in scope: the kinds of variables and the signatures of functions. */
  datatype Bound = Bound(kindOf: string -> Option<Kind>, signatureOf: string -> Option<Signature>)

  const MAX_CALL_PARAMETERS: nat := 5
  const MAX_LITERAL: nat := 9223372036854775807

  // ----- the forms each typing tries, in its order -----

  datatype Form =
    | Empty
    | Logical(left: string, right: string)
    | Equality(left: string, right: string)
    | Ordering(left: string, right: string)
    | Additive

  predicate Shorter(form: Form, n: nat) {
    form.Logical? || form.Equality? || form.Ordering? ==> |form.left| < n && |form.right| < n
  }

  /** The loosest operator of a trimmed text, as the validator looks for it. */
  function FormOf(x: string): (form: Form)
    ensures Shorter(form, |x|)
    ensures form.Empty? <==> x == []
  {
    if x == [] then Empty
    else
      var either := Split(x, OR);
      if either >= 0 then Halves(x, either, OR); Logical(x[..either], x[either + 2..])
      else
        var both := Split(x, AND);
        if both >= 0 then Halves(x, both, AND); Logical(x[..both], x[both + 2..])
        else
          var equality := Split(x, EQUALITY);
          if equality >= 0 then Halves(x, equality, EQUALITY); Equality(x[..equality], x[equality + 2..])
          else
            var ordering := Split(x, ORDERING);
            if ordering >= 0 then
              var skip := if ordering + 2 <= |x| && x[ordering + 1] == '=' then 2 else 1;
              Ordering(x[..ordering], x[ordering + skip..])
            else Additive
  }

  /** Operators of two characters leave room for both. */
  lemma Halves(x: string, k: int, ops: Operators)
    requires 0 <= k < |x| && OperatorAt(x, ops, k) && ops in {OR, AND, EQUALITY}
    ensures k + 2 <= |x|
  {
    assert |[x[k]]| == 1;
  }

  datatype Tight =
    | Product(left: string, right: string)
    | LoneSlash
    | Index(base: string, index: string)
    | Other

  /** What a text without looser operators is to the validator. */
  function TightOf(x: string): (tight: Tight)
    ensures tight.Product? ==> |tight.left| < |x| && |tight.right| < |x|
    ensures tight.Index? ==> |tight.base| < |x| && |tight.index| < |x|
  {
    var product := Split(x, MULTIPLICATIVE);
    if product >= 0 then
      if x[product] != '/' then Product(x[..product], x[product + 1..])
      else if product + 2 > |x| || x[product + 1] != '/' then LoneSlash
      else Product(x[..product], x[product + 2..])
    else
      var open := PostfixIndex(x);
      if open >= 0 then Index(x[..open], x[open + 1..|x| - 1]) else Other
  }

  /** The loosest operator as the lowerer looks for it. */
  function LoweredForm(x: string): (form: Form)
    ensures Shorter(form, |x|)
    ensures form.Empty? <==> x == []
  {
    if x == [] then Empty
    else if Split(x, OR) >= 0 then
      var k := Split(x, OR);
      Halves(x, k, OR); Logical(x[..k], x[k + 2..])
    else if Split(x, AND) >= 0 then
      var k := Split(x, AND);
      Halves(x, k, AND); Logical(x[..k], x[k + 2..])
    else if Split(x, EQUALITY) >= 0 then
      var k := Split(x, EQUALITY);
      Halves(x, k, EQUALITY); Equality(x[..k], x[k + 2..])
    else if Split(x, ORDERING) >= 0 then
      var k := Split(x, ORDERING);
      if k + 2 <= |x| && x[k + 1] == '=' then Ordering(x[..k], x[k + 2..]) else Ordering(x[..k], x[k + 1..])
    else Additive
  }

  lemma FormsAgree(x: string)
    ensures LoweredForm(x) == FormOf(x)
  {
    hide OperatorAt, LastBefore;
  }

  /** What a text without looser operators is to the lowerer. */
  function LoweredTight(x: string): (tight: Tight)
    ensures tight.Product? ==> |tight.left| < |x| && |tight.right| < |x|
    ensures tight.Index? ==> |tight.base| < |x| && |tight.index| < |x|
  {
    var k := Split(x, MULTIPLICATIVE);
    if k >= 0 && x[k] == '/' then
      if k + 2 <= |x| && x[k + 1] == '/' then Product(x[..k], x[k + 2..]) else LoneSlash
    else if k >= 0 then Product(x[..k], x[k + 1..])
    else if PostfixIndex(x) >= 0 then Index(x[..PostfixIndex(x)], x[PostfixIndex(x) + 1..|x| - 1])
    else Other
  }

  lemma TightsAgree(x: string)
    ensures LoweredTight(x) == TightOf(x)
  {
    hide OperatorAt, LastBefore, PostfixIndex;
  }

  // ----- atoms, shared by both -----

  predicate AllDigits(s: string) {
    s != [] && forall i :: 0 <= i < |s| ==> IsDigit(s[i])
  }

  function Value(s: string): int {
    if s == [] then 0 else 10 * Value(s[..|s| - 1]) + (s[|s| - 1] as int - '0' as int)
  }

  /** A quoted text whose escapes are newline, quote and backslash. */
  predicate LiteralFrom(x: string, i: nat, escaped: bool)
    requires i < |x|
    decreases |x| - i
  {
    if i == |x| - 1 then !escaped
    else if escaped then (x[i] == 'n' || x[i] == '"' || x[i] == '\\') && LiteralFrom(x, i + 1, false)
    else if x[i] == '\\' then LiteralFrom(x, i + 1, true)
    else x[i] != '"' && LiteralFrom(x, i + 1, false)
  }

  function AtomKind(x: string, b: Bound): Option<Kind> {
    if |x| >= 2 && x[0] == '"' && x[|x| - 1] == '"' then if LiteralFrom(x, 1, false) then Some(TextKind) else None
    else if AllDigits(x) then if Value(x) <= MAX_LITERAL then Some(IntKind) else None
    else if x == "true" || x == "false" then Some(BoolKind)
    else if ValidName(x) then b.kindOf(x)
    else None
  }

  // ----- builtins -----

  const BUILTINS: seq<string> := [
    "args", "chars", "contains", "fail", "find", "is_digit", "is_space", "is_xid_continue", "len", "read_text",
    "starts_with", "text_slice", "trim", "validate_unicode_source", "write_text"]

  /** The text the validator searches for a builtin's name. */
  const SEARCHED: string :=
    "|args" + ("|chars" + ("|contains" + ("|fail" + ("|find" + ("|is_digit" + ("|is_space"
    + ("|is_xid_continue" + ("|len" + ("|read_text" + ("|starts_with" + ("|text_slice" + ("|trim"
    + ("|validate_unicode_source" + ("|write_text" + "|"))))))))))))))

  /** Names between bars. */
  function Joined(names: seq<string>): string {
    if names == [] then "|" else "|" + names[0] + Joined(names[1..])
  }

  predicate Occurs(needle: string, haystack: string) {
    needle <= haystack || (haystack != [] && Occurs(needle, haystack[1..]))
  }

  /** The validator's test for a builtin head. */
  predicate SearchedBuiltin(head: string) {
    Occurs("|" + head + "|", SEARCHED)
  }

  lemma JoinedFrom(i: nat, piece: string)
    requires i < |BUILTINS| && "|" + BUILTINS[i] == piece
    ensures Joined(BUILTINS[i..]) == piece + Joined(BUILTINS[i + 1..])
  {
    assert BUILTINS[i..][1..] == BUILTINS[i + 1..];
  }

  lemma NamesFrom0()
    ensures Joined(BUILTINS[0..]) == "|args" + ("|chars" + ("|contains" + (Joined(BUILTINS[3..]))))
  {
    hide Joined;
    JoinedFrom(0, "|args");
    JoinedFrom(1, "|chars");
    JoinedFrom(2, "|contains");
  }

  lemma NamesFrom3()
    ensures Joined(BUILTINS[3..]) == "|fail" + ("|find" + ("|is_digit" + (Joined(BUILTINS[6..]))))
  {
    hide Joined;
    JoinedFrom(3, "|fail");
    JoinedFrom(4, "|find");
    JoinedFrom(5, "|is_digit");
  }

  lemma NamesFrom6()
    ensures Joined(BUILTINS[6..]) == "|is_space" + ("|is_xid_continue" + ("|len" + (Joined(BUILTINS[9..]))))
  {
    hide Joined;
    JoinedFrom(6, "|is_space");
    JoinedFrom(7, "|is_xid_continue");
    JoinedFrom(8, "|len");
  }

  lemma NamesFrom9()
    ensures Joined(BUILTINS[9..]) == "|read_text" + ("|starts_with" + ("|text_slice" + (Joined(BUILTINS[12..]))))
  {
    hide Joined;
    JoinedFrom(9, "|read_text");
    JoinedFrom(10, "|starts_with");
    JoinedFrom(11, "|text_slice");
  }

  lemma NamesFrom12()
    ensures Joined(BUILTINS[12..]) == "|trim" + ("|validate_unicode_source" + ("|write_text" + (Joined(BUILTINS[15..]))))
  {
    hide Joined;
    JoinedFrom(12, "|trim");
    JoinedFrom(13, "|validate_unicode_source");
    JoinedFrom(14, "|write_text");
  }

  /** The text holds the lowerer's names, each between bars. */
  lemma SearchedIsJoined()
    ensures SEARCHED == Joined(BUILTINS)
  {
    assert BUILTINS[15..] == [] && BUILTINS[0..] == BUILTINS;
    assert Joined([]) == "|";
    hide Joined;
    NamesFrom0();
    NamesFrom3();
    NamesFrom6();
    NamesFrom9();
    NamesFrom12();
  }

  /** The lowerer's test for a builtin head. */
  predicate ListedBuiltin(head: string) {
    head in BUILTINS
  }

  datatype Parameter = Exactly(kind: Kind) | TextOrList

  predicate Fits(kind: Option<Kind>, p: Parameter) {
    match p
    case Exactly(k) => kind == Some(k)
    case TextOrList => kind == Some(TextKind) || kind == Some(ListKind)
  }

  /** A call the two typings describe by how many arguments it has, what each is, and what it gives. */
  datatype Description = Description(arity: nat, first: Parameter, second: Parameter, third: Parameter, result: Kind) {
    function Parameters(): seq<Parameter> {
      if arity == 0 then [] else if arity == 1 then [first] else if arity == 2 then [first, second] else [first, second, third]
    }
  }

  /** One Text to a Bool, unless a branch says otherwise. */
  const DEFAULT := Description(1, Exactly(TextKind), Exactly(VoidKind), Exactly(VoidKind), BoolKind)

  /** The validator's table. */
  function ProfileBuiltin(head: string): Description {
    if head == "args" then DEFAULT.(arity := 0, result := ListKind)
    else if head == "fail" then DEFAULT.(arity := 0, result := VoidKind)
    else if head == "chars" then DEFAULT.(result := ListKind)
    else if head == "contains" then DEFAULT.(arity := 2, second := Exactly(TextKind))
    else if head == "find" then DEFAULT.(arity := 2, second := Exactly(TextKind), result := IntKind)
    else if head == "len" then DEFAULT.(first := TextOrList, result := IntKind)
    else if head == "read_text" then DEFAULT.(result := TextKind)
    else if head == "starts_with" then DEFAULT.(arity := 2, second := Exactly(TextKind))
    else if head == "text_slice" then
      DEFAULT.(arity := 3, second := Exactly(IntKind), third := Exactly(IntKind), result := TextKind)
    else if head == "trim" || head == "validate_unicode_source" then DEFAULT.(result := TextKind)
    else if head == "write_text" then DEFAULT.(arity := 2, second := Exactly(TextKind), result := VoidKind)
    else DEFAULT
  }

  /** The lowerer's table. */
  function LowerBuiltin(head: string): Description {
    if head == "args" then DEFAULT.(arity := 0, result := ListKind)
    else if head == "fail" then DEFAULT.(arity := 0, result := VoidKind)
    else if head == "chars" then DEFAULT.(result := ListKind)
    else if head == "contains" then DEFAULT.(arity := 2, second := Exactly(TextKind))
    else if head == "find" then DEFAULT.(arity := 2, second := Exactly(TextKind), result := IntKind)
    else if head == "len" then DEFAULT.(first := TextOrList, result := IntKind)
    else if head == "read_text" then DEFAULT.(result := TextKind)
    else if head == "starts_with" then DEFAULT.(arity := 2, second := Exactly(TextKind))
    else if head == "text_slice" then
      DEFAULT.(arity := 3, second := Exactly(IntKind), third := Exactly(IntKind), result := TextKind)
    else if head == "trim" then DEFAULT.(result := TextKind)
    else if head == "validate_unicode_source" then DEFAULT.(result := TextKind)
    else if head == "write_text" then DEFAULT.(arity := 2, second := Exactly(TextKind), result := VoidKind)
    else DEFAULT
  }

  /** The tables describe every head alike. */
  lemma TablesAgree(head: string)
    ensures LowerBuiltin(head) == ProfileBuiltin(head)
  {}

  function UserParameters(signature: Signature): (ps: seq<Parameter>)
    ensures |ps| == |signature.parameters|
  {
    seq(|signature.parameters|, i requires 0 <= i < |signature.parameters| => Exactly(signature.parameters[i]))
  }

  /** Two operands of an additive step. */
  function Combine(op: char, left: Option<Kind>, right: Option<Kind>): Option<Kind> {
    if op == '+' && left == Some(TextKind) && right == Some(TextKind) then Some(TextKind)
    else if left == Some(IntKind) && right == Some(IntKind) then Some(IntKind)
    else None
  }

  function OnlyIf(holds: bool, kind: Kind): Option<Kind> {
    if holds then Some(kind) else None
  }

  function EqualityKind(left: Option<Kind>, right: Option<Kind>): Option<Kind> {
    OnlyIf(left.Some? && left == right && left != Some(ListKind), BoolKind)
  }

  function IndexKind(base: Option<Kind>, index: Option<Kind>): Option<Kind> {
    OnlyIf(index == Some(IntKind) && (base == Some(TextKind) || base == Some(ListKind)), TextKind)
  }

  // ----- the validator -----

  /** The kind the validator gives an expression, if any. */
  function Profile(e: string, b: Bound): Option<Kind>
    decreases |e|, 4, 0
  {
    var x := Trim(e);
    match FormOf(x)
    case Empty => None
    case Logical(l, r) => OnlyIf(Profile(l, b) == Some(BoolKind) && Profile(r, b) == Some(BoolKind), BoolKind)
    case Equality(l, r) => EqualityKind(Profile(l, b), Profile(r, b))
    case Ordering(l, r) => OnlyIf(Profile(l, b) == Some(IntKind) && Profile(r, b) == Some(IntKind), BoolKind)
    case Additive => if LastSign(x, |x|) < 0 then ProfileTight(x, b) else Chain(x, |x|, b)
  }

  /** The kind of an additive chain up to a place: the chain up to its last sign, joined with what follows it. */
  function Chain(x: string, k: nat, b: Bound): Option<Kind>
    requires k <= |x| && (k < |x| || LastSign(x, k) >= 0)
    decreases |x|, 3, k
  {
    var last := LastSign(x, k);
    if last < 0 then Profile(x[..k], b)
    else Combine(x[last], Chain(x, last, b), Profile(x[last + 1..k], b))
  }

  function ProfileTight(x: string, b: Bound): Option<Kind>
    decreases |x|, 2, 0
  {
    match TightOf(x)
    case Product(l, r) => OnlyIf(Profile(l, b) == Some(IntKind) && Profile(r, b) == Some(IntKind), IntKind)
    case LoneSlash => None
    case Index(base, index) => IndexKind(Profile(base, b), Profile(index, b))
    case Other =>
      var head := CallHead(x);
      if head.None? then ProfileRest(x, b)
      else if SearchedBuiltin(head.value) then
        OnlyIf(ProfileCall(x, |head.value|, ProfileBuiltin(head.value).Parameters(), b), ProfileBuiltin(head.value).result)
      else
        var signature := b.signatureOf(head.value);
        if signature.Some? && |signature.value.parameters| <= MAX_CALL_PARAMETERS && signature.value.result.Some?
          && ProfileCall(x, |head.value|, UserParameters(signature.value), b)
        then signature.value.result
        else ProfileRest(x, b)
  }

  predicate ProfileCall(x: string, head: nat, ps: seq<Parameter>, b: Bound)
    requires head < |x|
    decreases |x|, 1, 0
  {
    Arity(x, head) == |ps| && forall i :: 0 <= i < |ps| ==> Fits(Profile(Argument(x, head, i), b), ps[i])
  }

  function ProfileRest(x: string, b: Bound): Option<Kind>
    decreases |x|, 1, 0
  {
    if x != [] && x[0] == '+' then OnlyIf(Profile(x[1..], b) == Some(IntKind), IntKind)
    else if x != [] && x[0] == '-' then
      var operand := Trim(x[1..]);
      if AllDigits(operand) then OnlyIf(Value(operand) <= MAX_LITERAL + 1, IntKind)
      else OnlyIf(Profile(operand, b) == Some(IntKind), IntKind)
    else if x != [] && x[0] == '!' then OnlyIf(Profile(x[1..], b) == Some(BoolKind), BoolKind)
    else if WrapsWhole(x) then Profile(x[1..|x| - 1], b)
    else AtomKind(x, b)
  }

  // ----- the lowerer -----

  function LoweredLogical(left: Option<Kind>, right: Option<Kind>): Option<Kind> {
    if left != Some(BoolKind) || right != Some(BoolKind) then None else Some(BoolKind)
  }

  function LoweredComparison(equality: bool, left: Option<Kind>, right: Option<Kind>): Option<Kind> {
    if equality then
      if left.None? || left != right then None
      else if left == Some(ListKind) then None
      else Some(BoolKind)
    else if left != Some(IntKind) || right != Some(IntKind) then None
    else Some(BoolKind)
  }

  function LoweredStep(left: Option<Kind>, right: Option<Kind>): Option<Kind> {
    if left != Some(IntKind) || right != Some(IntKind) then None else Some(IntKind)
  }

  function LoweredSum(op: char, left: Option<Kind>, right: Option<Kind>): Option<Kind> {
    if op == '+' && left == Some(TextKind) && right == Some(TextKind) then Some(TextKind) else LoweredStep(left, right)
  }

  function LoweredIndex(base: Option<Kind>, index: Option<Kind>): Option<Kind> {
    if index != Some(IntKind) || (base != Some(TextKind) && base != Some(ListKind)) then None else Some(TextKind)
  }

  /** The kind of what the lowerer emits for an expression; none when it fails. */
  function Lower(e: string, b: Bound): Option<Kind>
    decreases |e|, 4, 0
  {
    var x := Trim(e);
    match LoweredForm(x)
    case Empty => None
    case Logical(l, r) => LoweredLogical(Lower(l, b), Lower(r, b))
    case Equality(l, r) => LoweredComparison(true, Lower(l, b), Lower(r, b))
    case Ordering(l, r) => LoweredComparison(false, Lower(l, b), Lower(r, b))
    case Additive =>
      var k := Split(x, ADDITIVE);
      if k < 0 then LowerTight(x, b) else LoweredSum(x[k], Lower(x[..k], b), Lower(x[k + 1..], b))
  }

  function LowerTight(x: string, b: Bound): Option<Kind>
    decreases |x|, 2, 0
  {
    match LoweredTight(x)
    case Product(l, r) => LoweredStep(Lower(l, b), Lower(r, b))
    case LoneSlash => None
    case Index(base, index) => LoweredIndex(Lower(base, b), Lower(index, b))
    case Other =>
      var head := CallHead(x);
      if head.None? then LowerRest(x, b)
      else if ListedBuiltin(head.value) && LowerCall(x, |head.value|, LowerBuiltin(head.value).Parameters(), b) then
        Some(LowerBuiltin(head.value).result)
      else
        var signature := b.signatureOf(head.value);
        if signature.Some? && |signature.value.parameters| <= MAX_CALL_PARAMETERS
          && LowerCall(x, |head.value|, UserParameters(signature.value), b)
        then signature.value.result
        else LowerRest(x, b)
  }

  predicate LowerCall(x: string, head: nat, ps: seq<Parameter>, b: Bound)
    requires head < |x|
    decreases |x|, 1, 0
  {
    Arity(x, head) == |ps| && forall i :: 0 <= i < |ps| ==> Fits(Lower(Argument(x, head, i), b), ps[i])
  }

  /** What follows a minus: a literal one larger than elsewhere, or an Int. */
  function LoweredNegation(operand: string, b: Bound): Option<Kind>
    decreases |operand|, 5, 0
  {
    if AllDigits(operand) then
      if Value(operand) <= MAX_LITERAL then Some(IntKind)
      else if Value(operand) <= MAX_LITERAL + 1 then Some(IntKind)
      else None
    else if Lower(operand, b) != Some(IntKind) then None
    else Some(IntKind)
  }

  function LowerRest(x: string, b: Bound): Option<Kind>
    decreases |x|, 1, 0
  {
    if x != [] && x[0] == '+' then
      if Lower(x[1..], b) != Some(IntKind) then None else Lower(x[1..], b)
    else if x != [] && x[0] == '-' then LoweredNegation(Trim(x[1..]), b)
    else if x != [] && x[0] == '!' then
      if Lower(x[1..], b) != Some(BoolKind) then None else Some(BoolKind)
    else if WrapsWhole(x) then Lower(x[1..|x| - 1], b)
    else AtomKind(x, b)
  }
}
