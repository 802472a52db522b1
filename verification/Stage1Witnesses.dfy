/**
 Where the two typings agree without more ado, and texts on which they do not:
 a head joined by a bar, a stray sign, a shadowed builtin.
 */
module Stage1Witnesses {
  import opened Wrappers
  import opened Stage1Scanning
  import opened Stage1Typing
  import opened Stage1Chains
  import opened Stage1Agreement
  import opened Stage1Scope

  // ----- expressions without bars -----

  predicate NoBar(s: string) {
    forall i :: 0 <= i < |s| ==> s[i] != '|'
  }

  lemma {:induction false} TrimmedNoBar(s: string)
    requires NoBar(s)
    ensures NoBar(Trimmed(s)) && NoBar(Trim(s))
  {
  }

  lemma CutsNoBar(x: string)
    requires NoBar(x)
    ensures forall k :: 0 <= k <= |x| ==> NoBar(x[..k]) && NoBar(x[k..])
  {
  }

  lemma FormNoBar(x: string)
    requires NoBar(x)
    ensures var f := FormOf(x); f.Logical? || f.Equality? || f.Ordering? ==> NoBar(f.left) && NoBar(f.right)
  {
    CutsNoBar(x);
    hide OperatorAt, LastBefore, NoBar;
    var either, both, equality := Split(x, OR), Split(x, AND), Split(x, EQUALITY);
    if either >= 0 { Halves(x, either, OR); }
    if both >= 0 { Halves(x, both, AND); }
    if equality >= 0 { Halves(x, equality, EQUALITY); }
  }

  lemma TightNoBar(x: string)
    requires NoBar(x)
    ensures TightOf(x).Product? ==> NoBar(TightOf(x).left) && NoBar(TightOf(x).right)
    ensures TightOf(x).Index? ==> NoBar(TightOf(x).base) && NoBar(TightOf(x).index)
  {
    CutsNoBar(x);
    if x != [] { CutsNoBar(x[..|x| - 1]); }
    hide OperatorAt, LastBefore, PostfixIndex, NoBar;
  }

  lemma PieceNoBar(x: string, head: nat, k: nat)
    requires head <= |x| && NoBar(x) && k <= |Commas(CallBody(x, head), |CallBody(x, head)|)|
    ensures NoBar(Piece(CallBody(x, head), k))
  {
    hide Commas;
    var body := CallBody(x, head);
    forall i | 0 <= i < |body| ensures body[i] != '|' { assert body[i] == x[head..][i + 1] == x[head + i + 1]; }
    var piece := Piece(body, k);
    forall i | 0 <= i < |piece| ensures piece[i] != '|' { assert piece[i] in body; }
  }

  lemma ArgumentNoBar(x: string, head: nat, k: int)
    requires head <= |x| && NoBar(x)
    ensures NoBar(Argument(x, head, k))
  {
    hide Arity, Commas;
    if 0 <= k < Arity(x, head) {
      ArityBound(x, head);
      PieceNoBar(x, head, k);
      TrimmedNoBar(Piece(CallBody(x, head), k));
    }
  }

  /** An expression without bars has plain heads, so the lowerer gives whatever the validator gives. */
  lemma {:induction false} NoBarIsPlain(e: string)
    requires NoBar(e)
    ensures PlainHeads(e)
    decreases |e|, 3
  {
    hide Trim, OperatorAt, LastBefore, NoBar, PlainTight, FormOf;
    var x := Trim(e);
    TrimmedNoBar(e);
    FormNoBar(x);
    match FormOf(x)
    case Empty =>
    case Logical(l, r) => NoBarIsPlain(l); NoBarIsPlain(r);
    case Equality(l, r) => NoBarIsPlain(l); NoBarIsPlain(r);
    case Ordering(l, r) => NoBarIsPlain(l); NoBarIsPlain(r);
    case Additive =>
      var k := Split(x, ADDITIVE);
      if k < 0 {
        TightNoBarIsPlain(x);
      } else {
        SlicesNoBar(x, k);
        NoBarIsPlain(x[..k]);
        NoBarIsPlain(x[k + 1..]);
      }
  }

  lemma SlicesNoBar(x: string, k: nat)
    requires k < |x| && NoBar(x)
    ensures NoBar(x[..k]) && NoBar(x[k + 1..])
  {
  }

  lemma {:induction false} TightNoBarIsPlain(x: string)
    requires NoBar(x)
    ensures PlainTight(x)
    decreases |x|, 2
  {
    hide Trim, NoBar, PlainHeads, TightOf, SearchedBuiltin, ListedBuiltin, Arity, Argument, PlainRest;
    TightNoBar(x);
    match TightOf(x)
    case Product(l, r) => NoBarIsPlain(l); NoBarIsPlain(r);
    case LoneSlash =>
    case Index(base, index) => NoBarIsPlain(base); NoBarIsPlain(index);
    case Other =>
      RestNoBarIsPlain(x);
      var head := CallHead(x);
      if head.Some? {
        HeadNoBar(x, head.value);
        BuiltinTests(head.value);
        forall i | 0 <= i < Arity(x, |head.value|) ensures PlainHeads(Argument(x, |head.value|, i)) {
          ArgumentNoBar(x, |head.value|, i);
          NoBarIsPlain(Argument(x, |head.value|, i));
        }
      }
  }

  lemma HeadNoBar(x: string, head: string)
    requires NoBar(x) && head <= x
    ensures '|' !in head
  {
    forall i | 0 <= i < |head| ensures head[i] != '|' { assert head[i] == x[i]; }
  }

  lemma {:induction false} RestNoBarIsPlain(x: string)
    requires NoBar(x)
    ensures PlainRest(x)
    decreases |x|, 1
  {
    hide PlainHeads, ClosesAtEnd, AllDigits;
    if x != [] && (x[0] == '+' || x[0] == '!') {
      NoBarIsPlain(x[1..]);
    } else if x != [] && x[0] == '-' {
      TrimmedNoBar(x[1..]);
      NoBarIsPlain(Trim(x[1..]));
    } else if WrapsWhole(x) {
      NoBarIsPlain(x[1..|x| - 1]);
    }
  }

  // ----- a head that breaks the agreement -----

  const BROKEN: string := "args|chars(x)"

  lemma NoOperators(x: string, ops: Operators)
    requires forall i :: 0 <= i < |x| ==> !Listed(x, ops, i)
    ensures Split(x, ops) < 0
  {
    hide AtTop, PrecededByOperand, Listed;
  }

  lemma BrokenForm()
    ensures Trim(BROKEN) == BROKEN && FormOf(BROKEN).Additive? && Split(BROKEN, ADDITIVE) < 0 && TightOf(BROKEN).Other?
  {
    assert Leading(BROKEN) == 0 && BROKEN[0..] == BROKEN && Trimmed(BROKEN) == BROKEN;
    forall i | 0 <= i < |BROKEN|
      ensures !Listed(BROKEN, OR, i) && !Listed(BROKEN, AND, i) && !Listed(BROKEN, EQUALITY, i) && !Listed(BROKEN, ORDERING, i)
      ensures !Listed(BROKEN, ADDITIVE, i) && !Listed(BROKEN, MULTIPLICATIVE, i)
    {
      BrokenUnlisted(i);
    }
    hide OperatorAt, Listed;
    NoOperators(BROKEN, OR);
    NoOperators(BROKEN, AND);
    NoOperators(BROKEN, EQUALITY);
    NoOperators(BROKEN, ORDERING);
    NoOperators(BROKEN, ADDITIVE);
    NoOperators(BROKEN, MULTIPLICATIVE);
  }

  lemma BrokenUnlisted(i: nat)
    requires i < |BROKEN|
    ensures !Listed(BROKEN, OR, i) && !Listed(BROKEN, AND, i) && !Listed(BROKEN, EQUALITY, i) && !Listed(BROKEN, ORDERING, i)
    ensures !Listed(BROKEN, ADDITIVE, i) && !Listed(BROKEN, MULTIPLICATIVE, i)
  {
    var c := BROKEN[i];
    assert c !in "+-*%/&=!<>";
    if i + 2 <= |BROKEN| {
      var pair := BROKEN[i..i + 2];
      assert pair[0] == c && pair[1] == BROKEN[i + 1] && pair[1] !in "+-*%/&=!<>";
      assert pair != "||" && pair != "&&";
    }
    assert [c] != "<" && [c] != ">";
  }

  lemma {:induction false} CallHeadIs(x: string, head: string)
    requires head + "(" <= x && '(' !in head
    ensures CallHead(x) == Some(head)
  {
    assert x[0] == (head + "(")[0];
    if head != [] {
      assert (head + "(")[1..] == head[1..] + "(";
      CallHeadIs(x[1..], head[1..]);
      assert head == [head[0]] + head[1..];
    }
  }

  /** Two neighbouring names joined by a bar are found by the search. */
  lemma NeighboursFound(a: string, c: string, rest: seq<string>)
    ensures Occurs("|" + (a + "|" + c) + "|", Joined([a, c] + rest))
  {
    JoinedStarts(rest);
    assert ([a, c] + rest)[1..] == [c] + rest && ([c] + rest)[1..] == rest;
    assert Joined([a, c] + rest) == "|" + a + ("|" + c + Joined(rest));
    assert "|" + (a + "|" + c) + "|" <= Joined([a, c] + rest);
  }

  const BROKEN_HEAD: string := "args|chars"

  /** A head with a bar is no builtin's name and gets the default signature. */
  lemma BarIsUnlisted(head: string)
    requires '|' in head
    ensures !ListedBuiltin(head)
  {
    BuiltinsHaveNoBar();
  }

  lemma BarHasDefaultSignature(head: string)
    requires '|' in head
    ensures ProfileBuiltin(head).Parameters() == [Exactly(TextKind)] && ProfileBuiltin(head).result == BoolKind
  {
  }

  lemma BrokenBar()
    ensures '|' in BROKEN_HEAD && |BROKEN_HEAD| == 10
  {
    assert BROKEN_HEAD[4] == '|';
  }

  lemma BrokenNames()
    ensures BUILTINS == ["args", "chars"] + BUILTINS[2..]
    ensures "|" + ("args" + "|" + "chars") + "|" == "|" + BROKEN_HEAD + "|"
  {
  }

  lemma BrokenSearch()
    ensures SearchedBuiltin(BROKEN_HEAD)
  {
    hide Joined, Occurs;
    BrokenNames();
    SearchedIsJoined();
    NeighboursFound("args", "chars", BUILTINS[2..]);
  }

  lemma BrokenHead()
    ensures CallHead(BROKEN) == Some(BROKEN_HEAD)
  {
    CallHeadIs(BROKEN, BROKEN_HEAD);
  }

  lemma BrokenCall()
    ensures Arity(BROKEN, 10) == 1 && Argument(BROKEN, 10, 0) == "x"
  {
    assert BROKEN[10..] == "(x)";
    var p := "(x)";
    assert ClosesAtEnd(p, 2, 1, UNQUOTED);
    assert ClosesAtEnd(p, 1, 1, UNQUOTED);
    assert WrapsWhole(p);
    var body := CallBody(BROKEN, 10);
    assert body == "x";
    assert NestingAt(body, 0) == FLAT && NestingAt(body, 1) == FLAT;
    assert Commas(body, 0) == [] && Commas(body, 1) == [];
    assert Leading(body) == 0 && body[0..] == body && Trim(body) == body;
  }

  lemma VariableProfile(b: Bound)
    requires b.kindOf("x") == Some(TextKind)
    ensures Profile("x", b) == Some(TextKind)
  {
    var x := "x";
    assert Leading(x) == 0 && x[0..] == x && Trim(x) == x;
    assert !IsDigit(x[0]) && !AllDigits(x) && ValidName(x);
    NoOperators(x, OR);
    NoOperators(x, AND);
    NoOperators(x, EQUALITY);
    NoOperators(x, ORDERING);
    NoOperators(x, ADDITIVE);
    NoOperators(x, MULTIPLICATIVE);
    hide Split;
    assert TightOf(x).Other? && CallHead(x).None?;
    assert !WrapsWhole(x);
  }

  lemma SearchedProfile(x: string, head: string, b: Bound)
    requires TightOf(x).Other? && CallHead(x) == Some(head) && SearchedBuiltin(head) && MayBeCalled(Some(head))
    ensures ProfileTight(x, b) == OnlyIf(ProfileCall(x, |head|, ProfileBuiltin(head).Parameters(), b), ProfileBuiltin(head).result)
    ensures !ListedBuiltin(head) ==> !PlainTight(x)
  {
    TightsAgree(x);
    hide TightOf, LoweredTight, SearchedBuiltin, ListedBuiltin, ProfileBuiltin, LowerBuiltin, ProfileCall, PlainArguments, ProfileRest, PlainRest;
  }

  /** A text without signs is typed as it stands. */
  lemma SingleProfile(e: string, b: Bound)
    requires FormOf(Trim(e)).Additive? && NoSigns(Trim(e))
    ensures Profile(e, b) == ProfileTight(Trim(e), b) && PlainHeads(e) == PlainTight(Trim(e))
  {
    FormsAgree(Trim(e));
    hide Trim, FormOf, LoweredForm, Split, Profile, PlainHeads, ProfileTight, PlainTight, CleanSigns, SplitRightmost;
    SignsAbsent(Trim(e));
    ScanIsSplitting(e, b);
    LowerSingle(e, b);
  }

  predicate NoSigns(x: string) {
    forall i :: 0 <= i < |x| ==> x[i] != '+' && x[i] != '-'
  }

  lemma SignsAbsent(x: string)
    requires NoSigns(x)
    ensures Split(x, ADDITIVE) < 0 && NoStraySign(x)
  {
    hide PrecededByOperand, AtTop, FollowsOperand;
  }

  lemma OneArgument(x: string, head: nat, b: Bound)
    requires head < |x| && Arity(x, head) == 1 && Profile(Argument(x, head, 0), b) == Some(TextKind)
    ensures ProfileCall(x, head, [Exactly(TextKind)], b)
  {
    hide Arity, Argument, Profile;
  }

  /** A head joined from two builtin names: the validator types the call, the lowerer refuses it. */
  lemma BarHeadBreaks(b: Bound)
    requires FindsNames(b) && b.kindOf("x") == Some(TextKind)
    ensures Profile(BROKEN, b) == Some(BoolKind) && Lower(BROKEN, b).None? && !PlainHeads(BROKEN)
  {
    hide Trim, FormOf, TightOf, Split, SearchedBuiltin, ListedBuiltin, CallHead, Arity, Argument, ProfileBuiltin, LowerBuiltin,
         Profile, Lower, PlainHeads, ProfileTight, PlainTight, ProfileCall;
    BrokenForm();
    BrokenHead();
    BrokenBar();
    BarIsUnlisted(BROKEN_HEAD);
    BarHasDefaultSignature(BROKEN_HEAD);
    BrokenSearch();
    BrokenCall();
    VariableProfile(b);
    SearchedProfile(BROKEN, BROKEN_HEAD, b);
    SingleProfile(BROKEN, b);
    OneArgument(BROKEN, 10, b);
    Agreement(BROKEN, b);
  }

  // ----- a stray sign -----

  const STRAY: string := "1*-2"
  const SPACED: string := "1 + -2"

  predicate NoBrackets(x: string) {
    forall i :: 0 <= i < |x| ==> !IsBracket(x[i])
  }

  lemma {:induction false} AllAtTop(x: string, i: nat)
    requires NoBrackets(x) && i <= |x|
    ensures StateAt(x, i) == START
  {
    if i > 0 { AllAtTop(x, i - 1); }
  }

  /** Without the characters of the looser operators a text is additive. */
  lemma AdditiveForm(x: string)
    requires x != [] && forall i :: 0 <= i < |x| ==> x[i] !in "|&=!<>"
    ensures FormOf(x).Additive?
  {
    forall i | 0 <= i < |x|
      ensures !Listed(x, OR, i) && !Listed(x, AND, i) && !Listed(x, EQUALITY, i) && !Listed(x, ORDERING, i)
    {
      NotListed(x, i);
    }
    hide OperatorAt, Listed;
    NoOperators(x, OR);
    NoOperators(x, AND);
    NoOperators(x, EQUALITY);
    NoOperators(x, ORDERING);
  }

  lemma NotListed(x: string, i: nat)
    requires i < |x| && x[i] !in "|&=!<>"
    ensures !Listed(x, OR, i) && !Listed(x, AND, i) && !Listed(x, EQUALITY, i) && !Listed(x, ORDERING, i)
  {
    if i + 2 <= |x| { assert x[i..i + 2][0] == x[i]; }
    assert [x[i]][0] == x[i];
  }

  /** A digit, with a minus before it or not. */
  predicate IsShort(x: string) {
    (|x| == 1 && IsDigit(x[0])) || (|x| == 2 && x[0] == '-' && IsDigit(x[1]))
  }

  lemma ShortForm(x: string)
    requires IsShort(x)
    ensures FormOf(x).Additive? && Split(x, ADDITIVE) < 0 && Split(x, MULTIPLICATIVE) < 0
  {
    forall i | 0 <= i < |x| ensures x[i] !in "|&=!<>" {}
    AdditiveForm(x);
    NoOperatorFirst(x, ADDITIVE);
    NoOperatorFirst(x, MULTIPLICATIVE);
    hide FormOf, OperatorAt;
    if |x| == 2 { assert !OperatorAt(x, ADDITIVE, 1) && !OperatorAt(x, MULTIPLICATIVE, 1) by { DigitIsNone(x, 1); } }
  }

  lemma NoOperatorFirst(x: string, ops: Operators)
    requires x != []
    ensures !OperatorAt(x, ops, 0)
  {
  }

  lemma DigitIsNone(x: string, i: nat)
    requires i < |x| && IsDigit(x[i])
    ensures !OperatorAt(x, ADDITIVE, i) && !OperatorAt(x, MULTIPLICATIVE, i)
  {
    hide AtTop, PrecededByOperand;
  }

  /** The lowerer goes on with what is left of such a text. */
  lemma ShortLowers(e: string, b: Bound)
    requires IsShort(Trim(e))
    ensures Lower(e, b) == LowerRest(Trim(e), b)
  {
    var x := Trim(e);
    ShortForm(x);
    ShortHead(x);
    hide Trim, Split, FormOf, LowerRest, Lower, LowerTight, PlainHeads, PlainTight, CleanSigns, CleanTight, SplitRightmost, ProfileTight;
    LowerSingle(e, b);
    ShortTight(x, b);
  }

  lemma ShortHead(x: string)
    requires IsShort(x)
    ensures CallHead(x).None? && PostfixIndex(x) == -1
  {
    assert '(' !in x;
  }

  lemma ShortTight(x: string, b: Bound)
    requires Split(x, MULTIPLICATIVE) < 0 && PostfixIndex(x) == -1 && CallHead(x).None?
    ensures LowerTight(x, b) == LowerRest(x, b)
  {
    hide Split, PostfixIndex, CallHead, LowerRest;
  }

  lemma DigitValue(x: string)
    requires |x| == 1 && IsDigit(x[0])
    ensures AllDigits(x) && 0 <= Value(x) <= 9
  {
    assert x[..0] == [] && Value(x[..0]) == 0;
  }

  /** A text of one digit, spaces aside, is an Int to the lowerer. */
  lemma DigitLowers(e: string, b: Bound)
    requires |Trim(e)| == 1 && IsDigit(Trim(e)[0])
    ensures Lower(e, b) == Some(IntKind)
  {
    ShortLowers(e, b);
    DigitValue(Trim(e));
    hide Trim, Lower, Value;
    assert !WrapsWhole(Trim(e));
  }

  /** So is a negative one. */
  lemma NegativeLowers(e: string, b: Bound)
    requires |Trim(e)| == 2 && Trim(e)[0] == '-' && IsDigit(Trim(e)[1])
    ensures Lower(e, b) == Some(IntKind)
  {
    ShortLowers(e, b);
    var x := Trim(e);
    Untrimmed(x[1..]);
    DigitValue(x[1..]);
    hide Trim, Lower, Value;
  }

  lemma Untrimmed(x: string)
    requires x != [] && !IsSpace(x[0]) && !IsSpace(x[|x| - 1])
    ensures Trim(x) == x
  {
    assert Leading(x) == 0 && x[0..] == x;
  }

  lemma StrayMarks()
    ensures forall i: nat :: i <= |STRAY| ==> StateAt(STRAY, i) == START
    ensures PrecededByOperand(STRAY, 1) && !PrecededByOperand(STRAY, 2)
    ensures FollowsOperand(STRAY, 1) && FollowsOperand(STRAY, 2)
  {
    var x := STRAY;
    forall i: nat | i <= |x| ensures StateAt(x, i) == START { AllAtTop(x, i); }
    hide StateAt;
    assert EndsOperand(x[0]) && !EndsOperand(x[1]);
  }

  /** A minus behind another operator is stray: the lowerer reads a sign, the validator a cut. */
  lemma StrayShape()
    ensures Trim(STRAY) == STRAY && FormOf(STRAY).Additive? && !NoStraySign(STRAY)
    ensures Split(STRAY, ADDITIVE) < 0 && Split(STRAY, MULTIPLICATIVE) == 1
  {
    var x := STRAY;
    Untrimmed(x);
    AdditiveForm(x);
    StrayMarks();
    hide FormOf, StateAt, PrecededByOperand, FollowsOperand, Trim;
    assert SignAt(x, 2) && !OperatorAt(x, ADDITIVE, 2);
    assert OperatorAt(x, MULTIPLICATIVE, 1);
    forall i | 0 <= i < |x| ensures !OperatorAt(x, ADDITIVE, i) { }
    hide OperatorAt;
    assert LastBefore(x, MULTIPLICATIVE, 2) == 1;
  }

  lemma ProductLowers(e: string, b: Bound)
    requires FormOf(Trim(e)).Additive? && Split(Trim(e), ADDITIVE) < 0 && Split(Trim(e), MULTIPLICATIVE) >= 0
    requires var x := Trim(e); var k := Split(x, MULTIPLICATIVE);
      x[k] != '/' && Lower(x[..k], b) == Some(IntKind) && Lower(x[k + 1..], b) == Some(IntKind)
    ensures Lower(e, b) == Some(IntKind)
  {
    hide Trim, FormOf, LastBefore, Lower, LowerTight, PlainHeads, PlainTight, CleanSigns, CleanTight, SplitRightmost, ProfileTight;
    LowerSingle(e, b);
    ProductTight(Trim(e), b);
  }

  lemma ProductTight(x: string, b: Bound)
    requires Split(x, MULTIPLICATIVE) >= 0
    requires var k := Split(x, MULTIPLICATIVE);
      x[k] != '/' && Lower(x[..k], b) == Some(IntKind) && Lower(x[k + 1..], b) == Some(IntKind)
    ensures LowerTight(x, b) == Some(IntKind)
  {
    hide LastBefore, Lower;
  }

  /** The lowerer types a product with a negative right factor, the validator refuses it. */
  lemma StraySignBreaks(b: Bound)
    ensures Lower(STRAY, b) == Some(IntKind) && Profile(STRAY, b).None?
  {
    StrayShape();
    var x := STRAY;
    assert x[..1] == "1" && x[2..] == "-2";
    Untrimmed("1");
    Untrimmed("-2");
    DigitLowers("1", b);
    NegativeLowers("-2", b);
    hide Trim, FormOf, Split, Profile, Lower, NoStraySign, SplitRightmost;
    ProductLowers(x, b);
    ScanIsSplitting(x, b);
  }

  lemma SpacedMarks()
    ensures forall i: nat :: i <= |SPACED| ==> StateAt(SPACED, i) == START
    ensures PrecededByOperand(SPACED, 2) && !PrecededByOperand(SPACED, 3) && !PrecededByOperand(SPACED, 4)
    ensures FollowsOperand(SPACED, 4)
  {
    var x := SPACED;
    forall i: nat | i <= |x| ensures StateAt(x, i) == START { AllAtTop(x, i); }
    hide StateAt;
    assert PrecededByOperand(x, 1);
    assert FollowsOperand(x, 1) && FollowsOperand(x, 2) && FollowsOperand(x, 3);
  }

  lemma SpacedShape()
    ensures Trim(SPACED) == SPACED && FormOf(SPACED).Additive? && !NoStraySign(SPACED) && Split(SPACED, ADDITIVE) == 2
  {
    var x := SPACED;
    Untrimmed(x);
    AdditiveForm(x);
    SpacedMarks();
    hide FormOf, StateAt, PrecededByOperand, FollowsOperand, Trim;
    assert SignAt(x, 4) && !OperatorAt(x, ADDITIVE, 4) && OperatorAt(x, ADDITIVE, 2);
    forall i | 3 <= i < |x| ensures !OperatorAt(x, ADDITIVE, i) { }
  }

  lemma SumLowers(e: string, b: Bound)
    requires FormOf(Trim(e)).Additive? && Split(Trim(e), ADDITIVE) >= 0
    requires var x := Trim(e); var k := Split(x, ADDITIVE);
      Lower(x[..k], b) == Some(IntKind) && Lower(x[k + 1..], b) == Some(IntKind)
    ensures Lower(e, b) == Some(IntKind)
  {
    hide Trim, FormOf, LastBefore, Lower, Profile, PlainHeads, CleanSigns, SplitRightmost, NoStraySign;
    LowerSplits(e, b);
  }

  /** So with a sum: one plus minus two is lowered and refused. */
  lemma SpacedSignBreaks(b: Bound)
    ensures Lower(SPACED, b) == Some(IntKind) && Profile(SPACED, b).None?
  {
    hide Trim, FormOf, LastBefore, Lower, Profile, SplitRightmost, NoStraySign;
    SpacedShape();
    PiecesTrimmed();
    var x := SPACED;
    assert x[..2] == "1 " && x[3..] == " -2";
    DigitLowers("1 ", b);
    NegativeLowers(" -2", b);
    SumLowers(x, b);
    ScanIsSplitting(x, b);
  }

  lemma PiecesTrimmed()
    ensures Trim("1 ") == "1" && Trim(" -2") == "-2"
  {
    assert "1 "[0..] == "1 " && "1 "[..1] == "1" && Leading("1 ") == 0;
    assert " -2"[1..] == "-2" && Leading(" -2"[1..]) == 0;
  }

  // ----- a builtin's name declared again -----

  const SHADOWED: string := "trim(1)"

  lemma ShadowedForm()
    ensures Trim(SHADOWED) == SHADOWED && FormOf(SHADOWED).Additive? && Split(SHADOWED, ADDITIVE) < 0
    ensures Split(SHADOWED, MULTIPLICATIVE) < 0 && PostfixIndex(SHADOWED) == -1 && CallHead(SHADOWED) == Some("trim")
  {
    hide Trim, FormOf, LastBefore, CallHead, Listed;
    var x := SHADOWED;
    Untrimmed(x);
    AdditiveForm(x);
    CallHeadIs(x, "trim");
    forall i | 0 <= i < |x| ensures !Listed(x, ADDITIVE, i) && !Listed(x, MULTIPLICATIVE, i) { PlainCharacter(x, i); }
    NoOperators(x, ADDITIVE);
    NoOperators(x, MULTIPLICATIVE);
  }

  lemma PlainCharacter(x: string, i: nat)
    requires i < |x| && x[i] !in "+-*%/"
    ensures !Listed(x, ADDITIVE, i) && !Listed(x, MULTIPLICATIVE, i)
  {
  }

  lemma ShadowedCall()
    ensures Arity(SHADOWED, 4) == 1 && Argument(SHADOWED, 4, 0) == "1"
  {
    assert SHADOWED[4..] == "(1)";
    var p := "(1)";
    assert ClosesAtEnd(p, 2, 1, UNQUOTED);
    assert ClosesAtEnd(p, 1, 1, UNQUOTED);
    assert WrapsWhole(p);
    var body := CallBody(SHADOWED, 4);
    assert body == "1";
    assert NestingAt(body, 0) == FLAT && NestingAt(body, 1) == FLAT;
    assert Commas(body, 0) == [] && Commas(body, 1) == [];
    Untrimmed(body);
  }

  lemma TrimIsBuiltin()
    ensures ListedBuiltin("trim") && LowerBuiltin("trim").Parameters() == [Exactly(TextKind)]
  {
    assert BUILTINS[12] == "trim";
  }

  /** A call the builtin does not take falls to the declared function of that name. */
  lemma FallsToUser(x: string, head: string, b: Bound)
    requires Split(x, MULTIPLICATIVE) < 0 && PostfixIndex(x) == -1 && CallHead(x) == Some(head) && ListedBuiltin(head)
    requires MayBeCalled(Some(head))
    requires b.signatureOf(head).Some? && |b.signatureOf(head).value.parameters| <= MAX_CALL_PARAMETERS
    requires !LowerCall(x, |head|, LowerBuiltin(head).Parameters(), b)
    requires LowerCall(x, |head|, UserParameters(b.signatureOf(head).value), b)
    ensures LowerTight(x, b) == b.signatureOf(head).value.result && !CleanTight(x, b)
  {
    hide Split, PostfixIndex, CallHead, ListedBuiltin, LowerCall, ProfileBuiltin, LowerBuiltin, UserParameters, LowerRest, CleanArguments, CleanRest;
  }

  lemma OneIntArgument(x: string, head: nat, b: Bound)
    requires head < |x| && Arity(x, head) == 1 && Lower(Argument(x, head, 0), b) == Some(IntKind)
    ensures LowerCall(x, head, [Exactly(IntKind)], b) && !LowerCall(x, head, [Exactly(TextKind)], b)
  {
    hide Arity, Argument, Lower;
    var ps := [Exactly(TextKind)];
    assert !Fits(Lower(Argument(x, head, 0), b), ps[0]);
  }

  lemma ShadowedTight(b: Bound)
    requires b.signatureOf("trim") == Some(Signature(Some(IntKind), [IntKind]))
    ensures LowerTight(SHADOWED, b) == Some(IntKind) && !CleanTight(SHADOWED, b)
  {
    hide Split, PostfixIndex, CallHead, Arity, Argument, ProfileBuiltin, LowerBuiltin, ListedBuiltin, Lower, LowerTight, CleanTight, LowerCall, Trim, FormOf;
    ShadowedForm();
    ShadowedCall();
    TrimIsBuiltin();
    Untrimmed("1");
    DigitLowers("1", b);
    OneIntArgument(SHADOWED, 4, b);
    assert UserParameters(Signature(Some(IntKind), [IntKind])) == [Exactly(IntKind)];
    FallsToUser(SHADOWED, "trim", b);
  }

  /** A declared function with a builtin's name: the lowerer calls it, the validator knows the builtin only. */
  lemma ShadowedBuiltinBreaks(b: Bound)
    requires FindsNames(b) && b.signatureOf("trim") == Some(Signature(Some(IntKind), [IntKind]))
    ensures Lower(SHADOWED, b) == Some(IntKind) && Profile(SHADOWED, b).None?
  {
    ShadowedForm();
    ShadowedTight(b);
    hide Split, FormOf, Lower, Profile, CleanSigns, CleanTight, LowerTight, Trim, FindsNames, PlainHeads, SplitRightmost, CallHead;
    LowerSingle(SHADOWED, b);
    Converse(SHADOWED, b);
  }

  // ----- scopes in which these texts stand -----

  const BROKEN_SCOPE := [Declared("main", VoidKind, []), Variable("x", TextKind, false)]

  lemma BrokenScopeText()
    ensures ScopeText(BROKEN_SCOPE) == "|@main:Void;" + "|x:Text|" && ValidItems(BROKEN_SCOPE)
  {
    var items := BROKEN_SCOPE;
    assert ItemText(items[0]) == "@main:Void;|" && ItemText(items[1]) == "x:Text|";
    assert items[1..] == [items[1]] && items[1..][1..] == [];
    assert ItemsText(items[1..]) == ItemText(items[1]) + ItemsText([]);
    assert ValidName("main") && ValidName("x");
  }

  lemma BrokenLetters()
    ensures 'I' !in ScopeText(BROKEN_SCOPE) && 'B' !in ScopeText(BROKEN_SCOPE)
    ensures Occurs("|x:Text|", ScopeText(BROKEN_SCOPE))
  {
    hide Occurs, ScopeText;
    BrokenScopeText();
    WholeOccurs("|x:Text|");
    OccursLater("|x:Text|", "|@main:Void;", "|x:Text|");
    NoCapitals();
  }

  lemma NoCapitals()
    ensures 'I' !in "|@main:Void;" + "|x:Text|" && 'B' !in "|@main:Void;" + "|x:Text|"
  {}

  /** A scope without a kind's first letter has no variable of that kind. */
  lemma KindMissing(scope: string, kind: Kind)
    requires KindText(kind)[0] !in scope
    ensures !Holds(scope, "x", kind)
  {
    hide Occurs;
    LetterMissing("|" + "x" + ":" + KindText(kind) + "|", scope, 3);
    LetterMissing("|" + "x" + ":" + KindText(kind) + "!|", scope, 3);
  }

  lemma BrokenVariable()
    ensures VariableKind(ScopeText(BROKEN_SCOPE), "x") == Some(TextKind)
  {
    BrokenLetters();
    hide Occurs, ScopeText;
    KindMissing(ScopeText(BROKEN_SCOPE), IntKind);
    KindMissing(ScopeText(BROKEN_SCOPE), BoolKind);
    assert "|" + "x" + ":" + KindText(TextKind) + "|" == "|x:Text|";
  }

  lemma WholeOccurs(text: string)
    ensures Occurs(text, text)
  {}

  lemma LetterMissing(needle: string, haystack: string, i: nat)
    requires i < |needle| && needle[i] !in haystack
    ensures !Occurs(needle, haystack)
  {
    if Occurs(needle, haystack) { OccursLetters(needle, haystack, i); }
  }

  /** The joined head breaks the agreement in a scope of a main and one Text variable. */
  lemma BarHeadBreaksInScope()
    ensures ValidItems(BROKEN_SCOPE)
    ensures Profile(BROKEN, BoundOf(BROKEN_SCOPE)) == Some(BoolKind) && Lower(BROKEN, BoundOf(BROKEN_SCOPE)).None?
  {
    BrokenScopeText();
    BrokenVariable();
    ScopeFindsNames(BROKEN_SCOPE);
    hide Profile, Lower, FindsNames, PlainHeads, ScopeText, VariableKind;
    BarHeadBreaks(BoundOf(BROKEN_SCOPE));
  }

  const SHADOWED_SCOPE := [Declared("main", VoidKind, []), Declared("trim", IntKind, [IntKind])]

  lemma ShadowedScopeItems()
    ensures ValidItems(SHADOWED_SCOPE) && UniqueNames(SHADOWED_SCOPE)
  {
    assert ValidName("main") && ValidName("trim") && "main"[0] != "trim"[0];
  }

  /** The declared trim breaks it in a scope of a main and that function. */
  lemma ShadowedBuiltinBreaksInScope()
    ensures ValidItems(SHADOWED_SCOPE)
    ensures Lower(SHADOWED, BoundOf(SHADOWED_SCOPE)) == Some(IntKind) && Profile(SHADOWED, BoundOf(SHADOWED_SCOPE)).None?
  {
    ShadowedScopeItems();
    hide Profile, Lower, FindsNames, BoundOf, ValidItems, UniqueNames;
    ScopeFindsNames(SHADOWED_SCOPE);
    DeclaredIsFound(SHADOWED_SCOPE, SHADOWED_SCOPE[1]);
    ShadowedBuiltinBreaks(BoundOf(SHADOWED_SCOPE));
  }
}
