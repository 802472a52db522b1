/**
 Additive chains as the validator reads them: one pass from left to right that
 cuts at every sign, against splitting at the rightmost operator.
 */
module Stage1Chains {
  import opened Wrappers
  import opened Stage1Scanning
  import opened Stage1Typing

  // ----- trimming pieces -----

  lemma {:induction false} TrimmedDropsSpaces(s: string, n: nat)
    requires n <= |s| && forall i :: n <= i < |s| ==> IsSpace(s[i])
    ensures Trimmed(s) == Trimmed(s[..n])
    decreases |s|
  {
    if n == |s| {
      assert s[..n] == s;
    } else {
      assert s[..|s| - 1][..n] == s[..n];
      TrimmedDropsSpaces(s[..|s| - 1], n);
    }
  }

  lemma {:induction false} LeadingOfPrefix(s: string, n: nat)
    requires n <= |s| && Leading(s) < n
    ensures Leading(s[..n]) == Leading(s)
  {
    if Leading(s) > 0 {
      assert s[..n][1..] == s[1..][..n - 1];
      LeadingOfPrefix(s[1..], n - 1);
    }
  }

  lemma AllSpacesTrim(s: string)
    requires forall i :: 0 <= i < |s| ==> IsSpace(s[i])
    ensures Trim(s) == []
  {
    TrimmedDropsSpaces(s[Leading(s)..], 0);
  }

  /** Trailing spaces do not change what trimming gives. */
  lemma TrimDropsTrailing(s: string, n: nat)
    requires n <= |s| && forall i :: n <= i < |s| ==> IsSpace(s[i])
    ensures Trim(s[..n]) == Trim(s)
  {
    var a := Leading(s);
    if a < n {
      LeadingOfPrefix(s, n);
      TrimmedDropsSpaces(s[a..], n - a);
      assert s[a..][..n - a] == s[..n][a..];
    } else {
      AllSpacesTrim(s);
      AllSpacesTrim(s[..n]);
    }
  }

  /** A text that does not start with a space loses only trailing spaces. */
  lemma TrimWithoutLeading(s: string)
    requires Leading(s) == 0
    ensures Trim(s) == Trimmed(s)
  {
    assert s[0..] == s;
  }

  lemma TrimHasNoLeading(e: string)
    ensures Leading(Trim(e)) == 0
  {
    var s := e[Leading(e)..];
    if Trim(e) != [] { assert Trim(e)[0] == s[0]; }
  }

  lemma SameTrim(s: string, t: string, b: Bound)
    requires Trim(s) == Trim(t)
    ensures Profile(s, b) == Profile(t, b)
  {
    hide FormOf, ProfileTight, Chain, Trim;
  }

  // ----- the left-to-right reading cuts at the last sign -----

  lemma {:induction false} PrefixLast(x: string, n: nat, k: nat)
    requires k <= n <= |x|
    ensures LastSign(x[..n], k) == LastSign(x, k)
  {
    hide SignAt;
    if k > 0 {
      PrefixSign(x, n, k - 1);
      PrefixLast(x, n, k - 1);
    }
  }

  /** A chain is decided by the text before its end. */
  lemma {:induction false} ChainOfPrefix(x: string, n: nat, k: nat, b: Bound)
    requires k < n <= |x|
    ensures Chain(x[..n], k, b) == Chain(x, k, b)
    decreases k
  {
    hide LastSign, Profile, SignAt;
    PrefixLast(x, n, k);
    var last := LastSign(x, k);
    assert x[..n][..k] == x[..k];
    if last >= 0 {
      ChainOfPrefix(x, n, last, b);
      assert x[..n][last + 1..k] == x[last + 1..k];
    }
  }

  /** A prefix of a text without looser operators has none either. */
  lemma PrefixIsAdditive(x: string, n: nat)
    requires FormOf(x).Additive? && 0 < n <= |x|
    ensures FormOf(x[..n]).Additive?
  {
    hide OperatorAt;
    NoPrefixSplit(x, OR, n);
    NoPrefixSplit(x, AND, n);
    NoPrefixSplit(x, EQUALITY, n);
    NoPrefixSplit(x, ORDERING, n);
  }

  lemma NoPrefixSplit(x: string, ops: Operators, n: nat)
    requires n <= |x| && Split(x, ops) < 0
    ensures Split(x[..n], ops) < 0
  {
    hide OperatorAt;
    var k := Split(x[..n], ops);
    if k >= 0 { PrefixOperator(x, ops, n, k); }
  }

  /** The part of a chain before a sign, trimmed, ends where its last operand ends. */
  lemma OperandEnd(x: string, p: nat) returns (n: nat)
    requires p < |x| && SignAt(x, p) && Leading(x) == 0
    ensures 0 < n <= p && Trim(x[..p]) == x[..n] && forall i :: n <= i < p ==> IsSpace(x[i])
  {
    n := |Trimmed(x[..p])|;
    LeadingOfPrefix(x, p);
    TrimWithoutLeading(x[..p]);
    if n == 0 {
      SpacesShowNothing(x, p);
    }
  }

  lemma {:induction false} SpacesShowNothing(x: string, p: nat)
    requires p <= |x| && forall i :: 0 <= i < p ==> IsSpace(x[i])
    ensures !FollowsOperand(x, p)
  {
    if p > 0 {
      assert IsSpace(x[p - 1]);
      SpacesShowNothing(x, p - 1);
    }
  }

  lemma ChainUnfolds(x: string, k: nat, b: Bound)
    requires k <= |x| && (k < |x| || LastSign(x, k) >= 0)
    ensures var q := LastSign(x, k);
      Chain(x, k, b) == if q < 0 then Profile(x[..k], b) else Combine(x[q], Chain(x, q, b), Profile(x[q + 1..k], b))
  {
    hide LastSign, Profile, Combine;
  }

  /**
   Up to any of its signs, a chain read left to right has the kind that the
   text before that sign has by itself.
   */
  lemma ChainIsProfile(x: string, p: nat, b: Bound)
    requires p < |x| && SignAt(x, p) && Leading(x) == 0 && FormOf(x).Additive?
    ensures Chain(x, p, b) == Profile(x[..p], b)
  {
    hide LastSign, SignAt, Trim, Profile, Chain, FormOf, Combine, IsSpace, Leading;
    ChainUnfolds(x, p, b);
    var q := LastSign(x, p);
    if q >= 0 {
      var n := OperandEnd(x, p);
      LastPart(x, q, n, p, b);
      ProfileOfPart(x, q, n, p, b);
    }
  }

  lemma SpacesInside(x: string, a: nat, n: nat, p: nat)
    requires a <= n <= p <= |x| && forall i :: n <= i < p ==> IsSpace(x[i])
    ensures forall i :: n - a <= i < |x[a..p]| ==> IsSpace(x[a..p][i])
  {
    hide IsSpace;
    var part := x[a..p];
    forall i | n - a <= i < |part| ensures IsSpace(part[i]) {
      assert a + i < p && part[i] == x[a + i];
    }
  }

  lemma LastPart(x: string, q: nat, n: nat, p: nat, b: Bound)
    requires q < p < |x| && n <= p && SignAt(x, q) && forall i :: n <= i < p ==> IsSpace(x[i])
    ensures q < n && Profile(x[q + 1..n], b) == Profile(x[q + 1..p], b)
  {
    SignBeforeEnd(x, q, n, p);
    hide SignAt, Trim, Profile, IsSpace, Leading;
    PartWithoutSpaces(x, q + 1, n, p);
    SameTrim(x[q + 1..n], x[q + 1..p], b);
  }

  lemma PartWithoutSpaces(x: string, a: nat, n: nat, p: nat)
    requires a <= n <= p <= |x| && forall i :: n <= i < p ==> IsSpace(x[i])
    ensures Trim(x[a..n]) == Trim(x[a..p])
  {
    hide Trim, IsSpace;
    SpacesInside(x, a, n, p);
    TrimDropsTrailing(x[a..p], n - a);
    assert x[a..p][..n - a] == x[a..n];
  }

  lemma SignBeforeEnd(x: string, q: nat, n: nat, p: nat)
    requires q < p <= |x| && SignAt(x, q) && n <= p && forall i :: n <= i < p ==> IsSpace(x[i])
    ensures q < n
  {
    assert !IsSpace(x[q]);
  }

  lemma ProfileOfPart(x: string, q: nat, n: nat, p: nat, b: Bound)
    requires q < n <= p < |x| && LastSign(x, p) == q && FormOf(x).Additive?
    requires Trim(x[..p]) == x[..n] && forall i :: n <= i < p ==> IsSpace(x[i])
    ensures Profile(x[..p], b) == Combine(x[q], Chain(x, q, b), Profile(x[q + 1..n], b))
  {
    hide LastSign, SignAt, Trim, Profile, Chain, FormOf, Combine, IsSpace;
    var y := x[..n];
    PrefixIsAdditive(x, n);
    PrefixLast(x, n, n);
    SpacesAreNoSigns(x, n, p);
    ChainOfPrefix(x, n, q, b);
    assert y[q + 1..|y|] == x[q + 1..n];
    ProfileOfChain(x[..p], y, q, b);
  }

  lemma ProfileOfChain(s: string, y: string, q: nat, b: Bound)
    requires Trim(s) == y && FormOf(y).Additive? && q < |y| && LastSign(y, |y|) == q
    ensures Profile(s, b) == Combine(y[q], Chain(y, q, b), Profile(y[q + 1..|y|], b))
  {
    hide Trim, FormOf, LastSign, SignAt, Combine, ProfileTight;
    ChainUnfolds(y, |y|, b);
    assert Profile(s, b) == Chain(y, |y|, b);
  }

  /** The validator's pass types a chain as cutting it at its last sign does. */
  lemma ProfileCutsLast(e: string, b: Bound)
    requires FormOf(Trim(e)).Additive? && LastSign(Trim(e), |Trim(e)|) >= 0
    ensures var x := Trim(e); var k := LastSign(x, |x|);
      Profile(e, b) == Combine(x[k], Profile(x[..k], b), Profile(x[k + 1..], b))
  {
    hide FormOf, SignAt, LastSign, Trim, Profile, Chain, Combine, Leading;
    var x := Trim(e);
    var k := LastSign(x, |x|);
    TrimHasNoLeading(e);
    ProfileOfChain(e, x, k, b);
    ChainIsProfile(x, k, b);
    assert x[k + 1..|x|] == x[k + 1..];
  }

  // ----- the validator's single scan -----

  datatype AdditiveResult = NoAdditive | Typed(kind: Option<Kind>)

  /** A chain that fails at one of its signs fails as a whole. */
  lemma {:induction false} ChainFails(x: string, p: nat, k: nat, b: Bound)
    requires p < k <= |x| && SignAt(x, p) && Chain(x, p, b).None?
    ensures LastSign(x, k) >= 0 && Chain(x, k, b).None?
    decreases k
  {
    hide Profile, SignAt, LastSign;
    var last := LastSign(x, k);
    LastIsPast(x, p, k);
    ChainUnfolds(x, k, b);
    if last > p { ChainFails(x, p, last, b); }
  }

  lemma LastIsPast(x: string, p: nat, k: nat)
    requires p < k <= |x| && SignAt(x, p)
    ensures LastSign(x, k) >= p
  {
    hide SignAt;
  }

  /** Joins the next operand of a chain to what was read so far. */
  method JoinOperand(found: bool, op: char, result: Option<Kind>, kind: Option<Kind>) returns (joined: Option<Kind>)
    ensures joined == if found then Combine(op, result, kind) else kind
  {
    if !found {
      joined := kind;
    } else if op == '+' && result == Some(TextKind) && kind == Some(TextKind) {
      joined := Some(TextKind);
    } else if result == Some(IntKind) && kind == Some(IntKind) {
      joined := Some(IntKind);
    } else {
      joined := None;
    }
  }

  /** What the scan has read when it stands before a place. */
  ghost predicate ReadSoFar(x: string, index: nat, start: nat, found: bool, op: char, result: Option<Kind>, b: Bound)
    requires index <= |x|
  {
    var last := LastSign(x, index);
    && found == (last >= 0)
    && start == last + 1
    && (found ==> op == x[last] && result.Some? && result == Chain(x, last, b))
  }

  lemma ReadOperator(x: string, index: nat, start: nat, found: bool, op: char, result: Option<Kind>, b: Bound)
    requires index < |x| && ReadSoFar(x, index, start, found, op, result, b) && SignAt(x, index)
    ensures start <= index && Chain(x, index, b) == var kind := Profile(x[start..index], b); if found then Combine(op, result, kind) else kind
    ensures LastSign(x, index + 1) == index
  {
    hide Profile, SignAt, Combine;
    ChainUnfolds(x, index, b);
    if !found { assert x[0..index] == x[..index]; }
  }

  lemma ReadOther(x: string, index: nat, start: nat, found: bool, op: char, result: Option<Kind>, b: Bound)
    requires index < |x| && ReadSoFar(x, index, start, found, op, result, b) && !SignAt(x, index)
    ensures ReadSoFar(x, index + 1, start, found, op, result, b)
  {
    hide Chain, SignAt;
  }

  /** The one pass over an additive chain, typing each operand as the next sign is reached. */
  method ProfileAdditiveType(x: string, b: Bound) returns (r: AdditiveResult)
    ensures r == if LastSign(x, |x|) < 0 then NoAdditive else Typed(Chain(x, |x|, b))
  {
    hide Profile, Chain, LastSign, ReadSoFar, FollowsOperand;
    var depth, quoted, escaped := 0, false, false;
    var start, found, op, result := 0, false, '+', None;
    NothingRead(x, b);
    var index := 0;
    while index < |x|
      invariant 0 <= index <= |x|
      invariant StateAt(x, index) == Scan(depth, quoted, escaped)
      invariant ReadSoFar(x, index, start, found, op, result, b)
    {
      var symbol := x[index];
      if quoted {
        if escaped {
          escaped := false;
        } else if symbol == '\\' {
          escaped := true;
        } else if symbol == '"' {
          quoted := false;
        }
        ReadOther(x, index, start, found, op, result, b);
      } else if symbol == '"' {
        quoted := true;
        ReadOther(x, index, start, found, op, result, b);
      } else if symbol == '(' || symbol == '[' {
        depth := depth + 1;
        ReadOther(x, index, start, found, op, result, b);
      } else if symbol == ')' || symbol == ']' {
        depth := depth - 1;
        ReadOther(x, index, start, found, op, result, b);
      } else if depth == 0 && (symbol == '+' || symbol == '-') {
        var preceded := LooksBack(x, index);
        if preceded {
          ReadOperator(x, index, start, found, op, result, b);
          result := JoinOperand(found, op, result, Profile(x[start..index], b));
          if result.None? {
            ChainFails(x, index, |x|, b);
            return Typed(None);
          }
          found, op, start := true, symbol, index + 1;
          OperatorRead(x, index, result, b);
        } else {
          ReadOther(x, index, start, found, op, result, b);
        }
      } else {
        ReadOther(x, index, start, found, op, result, b);
      }
      index := index + 1;
    }
    r := Finished(x, start, found, op, result, b);
  }

  lemma NothingRead(x: string, b: Bound)
    ensures ReadSoFar(x, 0, 0, false, '+', None, b)
  {
  }

  lemma OperatorRead(x: string, index: nat, result: Option<Kind>, b: Bound)
    requires index < |x| && LastSign(x, index + 1) == index && result.Some? && result == Chain(x, index, b)
    ensures ReadSoFar(x, index + 1, index + 1, true, x[index], result, b)
  {
    hide Chain, LastSign;
  }

  method Finished(x: string, start: nat, found: bool, op: char, result: Option<Kind>, b: Bound) returns (r: AdditiveResult)
    requires ReadSoFar(x, |x|, start, found, op, result, b)
    ensures r == if LastSign(x, |x|) < 0 then NoAdditive else Typed(Chain(x, |x|, b))
  {
    hide Profile, Chain, LastSign, Combine;
    if !found { return NoAdditive; }
    ChainUnfolds(x, |x|, b);
    assert x[start..|x|] == x[start..];
    var joined := JoinOperand(true, op, result, Profile(x[start..], b));
    r := Typed(joined);
  }

  // ----- a typed text ends in an operand -----

  /** A text as trimming leaves it. */
  predicate EndsTight(x: string) {
    x != [] && !IsSpace(x[|x| - 1])
  }

  predicate EndsInOperand(x: string) {
    x != [] && EndsOperand(x[|x| - 1])
  }

  predicate IsSuffix(s: string, x: string) {
    |s| <= |x| && x[|x| - |s|..] == s
  }

  lemma TrimEndsTight(e: string)
    ensures Trim(e) != [] ==> EndsTight(Trim(e))
  {
  }

  /** Trimming a suffix keeps the last character. */
  lemma SuffixEnd(x: string, s: string)
    requires EndsTight(x) && IsSuffix(s, x) && s != []
    ensures Trim(s) != [] && Trim(s)[|Trim(s)| - 1] == x[|x| - 1]
  {
    assert s[|s| - 1] == x[|x| - 1];
    var t := s[Leading(s)..];
    assert t != [] && t[|t| - 1] == s[|s| - 1];
  }

  lemma TypedSuffix(x: string, s: string)
    requires EndsTight(x) && IsSuffix(s, x) && EndsInOperand(Trim(s))
    ensures EndsInOperand(x)
  {
    hide Trim;
    if s == [] { NothingTrimmed(); }
    SuffixEnd(x, s);
  }

  lemma NothingTrimmed()
    ensures Trim("") == ""
  {
  }

  lemma FormSuffix(x: string)
    ensures var f := FormOf(x); f.Logical? || f.Equality? || f.Ordering? ==> IsSuffix(f.right, x)
  {
    hide LastBefore, OperatorAt;
    var either, both, equality := Split(x, OR), Split(x, AND), Split(x, EQUALITY);
    if either >= 0 { Halves(x, either, OR); }
    if both >= 0 { Halves(x, both, AND); }
    if equality >= 0 { Halves(x, equality, EQUALITY); }
  }

  lemma {:induction false} ClosesWithParenthesis(e: string, i: nat, depth: int, q: Quotes)
    requires i <= |e| && ClosesAtEnd(e, i, depth, q)
    ensures e != [] && e[|e| - 1] == ')'
    decreases |e| - i
  {
    if q.quoted || e[i] == '"' {
      ClosesWithParenthesis(e, i + 1, depth, AfterQuotes(q, e[i]));
    } else if e[i] == '(' {
      ClosesWithParenthesis(e, i + 1, depth + 1, q);
    } else if e[i] == ')' {
      if depth - 1 != 0 { ClosesWithParenthesis(e, i + 1, depth - 1, q); }
    } else {
      ClosesWithParenthesis(e, i + 1, depth, q);
    }
  }

  /** A call with its arguments counted ends in a parenthesis. */
  lemma CallEnds(x: string, head: nat)
    requires head < |x| && Arity(x, head) >= 0
    ensures EndsInOperand(x)
  {
    ClosesWithParenthesis(x[head..], 0, 0, UNQUOTED);
  }

  lemma AtomEnds(x: string, b: Bound)
    requires AtomKind(x, b).Some?
    ensures EndsInOperand(x)
  {
    if x == "true" { assert x[3] == 'e'; }
    if x == "false" { assert x[4] == 'e'; }
  }

  /** Whatever the validator types ends, trimmed, in a character that ends an operand. */
  lemma {:induction false} TypedEnds(e: string, b: Bound)
    requires Profile(e, b).Some?
    ensures EndsInOperand(Trim(e))
    decreases |e|, 2
  {
    hide Trim, FormOf, Chain, ProfileTight, EndsInOperand, EndsTight, IsSuffix, LastSign;
    var x := Trim(e);
    var form := FormOf(x);
    FormSuffix(x);
    TrimEndsTight(e);
    match form
    case Empty =>
    case Logical(_, r) => TypedEnds(r, b); TypedSuffix(x, r);
    case Equality(_, r) => TypedEnds(r, b); TypedSuffix(x, r);
    case Ordering(_, r) => TypedEnds(r, b); TypedSuffix(x, r);
    case Additive =>
      var k := LastSign(x, |x|);
      if k < 0 {
        TightEnds(x, b);
      } else {
        ChainUnfolds(x, |x|, b);
        assert x[k + 1..|x|] == x[k + 1..];
        TypedEnds(x[k + 1..], b);
        RestIsSuffix(x, k + 1);
        TypedSuffix(x, x[k + 1..]);
      }
  }

  lemma RestIsSuffix(x: string, a: nat)
    requires a <= |x|
    ensures IsSuffix(x[a..], x)
  {
  }

  lemma {:induction false} TightEnds(x: string, b: Bound)
    requires EndsTight(x) && ProfileTight(x, b).Some?
    ensures EndsInOperand(x)
    decreases |x|, 1
  {
    hide Profile, EndsTight, IsSuffix, ProfileRest, SearchedBuiltin, ProfileBuiltin, PostfixIndex, LastBefore, Arity, Argument;
    var product := Split(x, MULTIPLICATIVE);
    match TightOf(x)
    case Product(_, r) =>
      TypedEnds(r, b);
      RestIsSuffix(x, |x| - |r|);
      TypedSuffix(x, r);
    case LoneSlash =>
    case Index(_, _) => IndexEnds(x);
    case Other =>
      var head := CallHead(x);
      if head.Some? && Arity(x, |head.value|) >= 0 {
        CallEnds(x, |head.value|);
      } else {
        RestEnds(x, b);
      }
  }

  lemma IndexEnds(x: string)
    requires PostfixIndex(x) >= 0
    ensures EndsInOperand(x)
  {
  }

  lemma {:induction false} RestEnds(x: string, b: Bound)
    requires EndsTight(x) && ProfileRest(x, b).Some?
    ensures EndsInOperand(x)
    decreases |x|, 0
  {
    hide Profile, EndsInOperand, IsSuffix, AtomKind, Trim, ClosesAtEnd;
    if x[0] == '+' || x[0] == '!' {
      TypedEnds(x[1..], b);
      RestIsSuffix(x, 1);
      TypedSuffix(x, x[1..]);
    } else if x[0] == '-' {
      NegatedEnds(x, b);
    } else if WrapsWhole(x) {
      WrapEnds(x);
    } else {
      AtomEnds(x, b);
    }
  }

  lemma WrapEnds(x: string)
    requires WrapsWhole(x)
    ensures EndsInOperand(x)
  {
    ClosesWithParenthesis(x, 0, 0, UNQUOTED);
  }

  lemma {:induction false} NegatedEnds(x: string, b: Bound)
    requires EndsTight(x) && x[0] == '-' && ProfileRest(x, b).Some?
    ensures EndsInOperand(x)
    decreases |x|, 0, 0
  {
    hide Profile, Trim, IsSuffix, AllDigits, EndsInOperand;
    var operand := Trim(x[1..]);
    TrimEndsTight(x[1..]);
    RestIsSuffix(x, 1);
    if AllDigits(operand) {
      DigitsEnd(operand);
    } else {
      TypedEnds(operand, b);
      if operand == [] { NothingEnds(); }
      RestIsSuffix(operand, 0);
      assert operand[0..] == operand;
      TypedSuffix(operand, operand);
    }
    OperandOfNegation(x);
  }

  lemma NothingEnds()
    ensures !EndsInOperand(Trim(""))
  {
  }

  lemma DigitsEnd(s: string)
    requires AllDigits(s)
    ensures EndsInOperand(s)
  {
  }

  lemma OperandOfNegation(x: string)
    requires EndsTight(x) && EndsInOperand(Trim(x[1..]))
    ensures EndsInOperand(x)
  {
    hide Trim;
    RestIsSuffix(x, 1);
    TypedSuffix(x, x[1..]);
  }

  // ----- the scan against the splitter -----

  /** No sign is stray: each has the end of an operand right before it, spaces aside. */
  predicate NoStraySign(x: string) {
    forall i :: 0 <= i < |x| && SignAt(x, i) ==> OperatorAt(x, ADDITIVE, i)
  }

  /** A piece that ends in an operand puts one right before what follows it. */
  lemma {:induction false} PieceShows(x: string, a: nat, k: nat)
    requires a <= k <= |x| && EndsInOperand(Trim(x[a..k]))
    ensures PrecededByOperand(x, k)
    decreases k
  {
    hide Trim;
    NothingTrimmed();
    if a == k {
      assert false;
    } else if IsSpace(x[k - 1]) {
      PartWithoutSpaces(x, a, k - 1, k);
      PieceShows(x, a, k - 1);
    } else {
      var s := x[a..k];
      assert s[|s| - 1] == x[k - 1];
      SuffixEnd(s, s);
    }
  }

  /** Where a chain is typed, an operand ends. */
  lemma ChainShows(x: string, k: nat, b: Bound)
    requires k < |x| && Chain(x, k, b).Some?
    ensures PrecededByOperand(x, k)
  {
    hide Trim, Profile, LastSign, EndsInOperand, PrecededByOperand;
    ChainUnfolds(x, k, b);
    var q := LastSign(x, k);
    var a := if q < 0 then 0 else q + 1;
    assert x[0..k] == x[..k];
    TypedEnds(x[a..k], b);
    PieceShows(x, a, k);
  }

  /** The signs of a typed chain are operators of the splitter. */
  lemma {:induction false} TypedChainIsClean(x: string, k: nat, b: Bound, i: nat)
    requires k <= |x| && (k < |x| || LastSign(x, k) >= 0) && Chain(x, k, b).Some?
    requires i < k && SignAt(x, i)
    ensures OperatorAt(x, ADDITIVE, i)
    decreases k
  {
    hide Profile, LastSign, FollowsOperand, PrecededByOperand;
    ChainUnfolds(x, k, b);
    var q := LastSign(x, k);
    ChainShows(x, q, b);
    if i < q { TypedChainIsClean(x, q, b, i); }
  }

  /** Without a stray sign the last sign is the last operator. */
  lemma {:induction false} SameCut(x: string, k: nat)
    requires k <= |x| && NoStraySign(x)
    ensures LastSign(x, k) == LastBefore(x, ADDITIVE, k)
  {
    hide SignAt, OperatorAt;
    if k > 0 {
      SameCut(x, k - 1);
      if OperatorAt(x, ADDITIVE, k - 1) { OperatorIsSign(x, k - 1); }
    }
  }

  /** What splitting at the rightmost operator makes of the validator's own answers for the pieces. */
  function SplitRightmost(e: string, b: Bound): Option<Kind> {
    var x := Trim(e);
    var k := Split(x, ADDITIVE);
    if k < 0 then ProfileTight(x, b) else Combine(x[k], Profile(x[..k], b), Profile(x[k + 1..], b))
  }

  /**
   The pass from left to right is rightmost splitting exactly where no sign is
   stray; a text with a stray sign gets no kind.
   */
  lemma ScanIsSplitting(e: string, b: Bound)
    requires FormOf(Trim(e)).Additive?
    ensures Profile(e, b) == if NoStraySign(Trim(e)) then SplitRightmost(e, b) else None
    ensures Profile(e, b) == SplitRightmost(e, b) <==> NoStraySign(Trim(e)) || SplitRightmost(e, b).None?
  {
    hide FormOf, SignAt, OperatorAt, Trim, Profile, Chain, ProfileTight, LastSign, LastBefore, Combine;
    var x := Trim(e);
    if NoStraySign(x) {
      SameCut(x, |x|);
      if Split(x, ADDITIVE) >= 0 { ProfileCutsLast(e, b); } else { Uncut(e, b); }
    } else {
      var i :| 0 <= i < |x| && SignAt(x, i) && !OperatorAt(x, ADDITIVE, i);
      ProfileOfSigns(e, b);
      if Chain(x, |x|, b).Some? { TypedChainIsClean(x, |x|, b, i); }
    }
  }

  lemma Uncut(e: string, b: Bound)
    requires FormOf(Trim(e)).Additive? && LastSign(Trim(e), |Trim(e)|) < 0
    ensures Profile(e, b) == ProfileTight(Trim(e), b)
  {
    hide FormOf, Trim, LastSign, ProfileTight;
  }

  lemma ProfileOfSigns(e: string, b: Bound)
    requires FormOf(Trim(e)).Additive? && LastSign(Trim(e), |Trim(e)|) >= 0
    ensures Profile(e, b) == Chain(Trim(e), |Trim(e)|, b)
  {
    hide FormOf, Trim, LastSign, ProfileTight, Chain;
  }
}
