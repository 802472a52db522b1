/**
 When the validator's typing and the lowerer's agree: from the validator to the
 lowerer, and back.
 */
module Stage1Agreement {
  import opened Wrappers
  import opened Stage1Scanning
  import opened Stage1Typing
  import opened Stage1Chains

  // ----- heads of calls -----

  lemma {:induction false} NamesAreJoined(head: string, names: seq<string>)
    requires head in names
    ensures Occurs("|" + head + "|", Joined(names))
  {
    var needle := "|" + head + "|";
    if head == names[0] {
      JoinedStarts(names[1..]);
      assert needle <= Joined(names);
    } else {
      NamesAreJoined(head, names[1..]);
      OccursLater(needle, "|" + names[0], Joined(names[1..]));
    }
  }

  lemma JoinedStarts(names: seq<string>)
    ensures Joined(names) != [] && Joined(names)[0] == '|'
  {
  }

  lemma {:induction false} OccursLater(needle: string, skipped: string, rest: string)
    requires Occurs(needle, rest)
    ensures Occurs(needle, skipped + rest)
  {
    if skipped == [] {
      assert skipped + rest == rest;
    } else {
      OccursLater(needle, skipped[1..], rest);
      assert (skipped + rest)[1..] == skipped[1..] + rest;
    }
  }

  /** A needle that starts with a bar cannot start inside a piece without bars. */
  lemma {:induction false} OccursBehind(needle: string, skipped: string, rest: string)
    requires needle != [] && needle[0] == '|' && '|' !in skipped && Occurs(needle, skipped + rest)
    ensures Occurs(needle, rest)
  {
    if skipped == [] {
      assert skipped + rest == rest;
    } else {
      assert (skipped + rest)[0] == skipped[0];
      assert (skipped + rest)[1..] == skipped[1..] + rest;
      OccursBehind(needle, skipped[1..], rest);
    }
  }

  /** Searching for a head without bars finds exactly the names. */
  lemma {:induction false} JoinedNames(head: string, names: seq<string>)
    requires '|' !in head && forall i :: 0 <= i < |names| ==> '|' !in names[i]
    requires Occurs("|" + head + "|", Joined(names))
    ensures head in names
  {
    var needle := "|" + head + "|";
    if names != [] {
      if needle <= Joined(names) {
        JoinedStarts(names[1..]);
        assert needle[1..] == head + "|" && Joined(names)[1..] == names[0] + Joined(names[1..]);
        SameName(head, names[0], Joined(names[1..]));
        assert head == names[0];
      } else {
        assert Joined(names)[1..] == names[0] + Joined(names[1..]);
        OccursBehind(needle, names[0], Joined(names[1..]));
        JoinedNames(head, names[1..]);
        assert head in names[1..];
      }
    }
  }

  lemma {:induction false} SameName(head: string, name: string, rest: string)
    requires '|' !in head && '|' !in name && rest != [] && rest[0] == '|'
    requires head + "|" <= name + rest
    ensures head == name
  {
    assert (head + "|")[0] == (name + rest)[0];
    if head != [] && name != [] {
      assert (head + "|")[1..] == head[1..] + "|" && (name + rest)[1..] == name[1..] + rest;
      SameName(head[1..], name[1..], rest);
      assert head == [head[0]] + head[1..] && name == [name[0]] + name[1..];
    }
  }

  lemma BuiltinsHaveNoBar()
    ensures forall i :: 0 <= i < |BUILTINS| ==> '|' !in BUILTINS[i]
  {
  }

  /** The two tests for a builtin differ only on heads that contain a bar. */
  lemma BuiltinTests(head: string)
    ensures ListedBuiltin(head) ==> SearchedBuiltin(head)
    ensures SearchedBuiltin(head) && '|' !in head ==> ListedBuiltin(head)
  {
    hide Joined, Occurs;
    SearchedIsJoined();
    if ListedBuiltin(head) { NamesAreJoined(head, BUILTINS); }
    if SearchedBuiltin(head) && '|' !in head {
      BuiltinsHaveNoBar();
      JoinedNames(head, BUILTINS);
    }
  }

  // ----- what the lookup of a function may find -----

  /** Made of name characters and bars, with a bar among them. */
  predicate BarredName(head: string) {
    '|' in head && forall i :: 0 <= i < |head| ==> head[i] == '|' || IsIdentifier(head[i])
  }

  /** A found head starts like a name, and names joined by bars are never found. */
  ghost predicate FindsNames(b: Bound) {
    && (forall head :: b.signatureOf(head).Some? ==> head != [] && IsIdentifier(head[0]))
    && forall head :: BarredName(head) ==> b.signatureOf(head).None?
  }

  // ----- the conditions -----

  /** A head that starts as no operator and no bracket does. */
  predicate MayBeCalled(head: Option<string>) {
    head.Some? && head.value != [] && (head.value[0] == '|' || IsIdentifier(head.value[0]))
  }

  /** No call head anywhere in the expression passes the validator's builtin search without being a builtin's name. */
  predicate PlainHeads(e: string)
    decreases |e|, 3
  {
    var x := Trim(e);
    match FormOf(x)
    case Empty => true
    case Logical(l, r) => PlainHeads(l) && PlainHeads(r)
    case Equality(l, r) => PlainHeads(l) && PlainHeads(r)
    case Ordering(l, r) => PlainHeads(l) && PlainHeads(r)
    case Additive =>
      var k := Split(x, ADDITIVE);
      if k < 0 then PlainTight(x) else PlainHeads(x[..k]) && PlainHeads(x[k + 1..])
  }

  predicate PlainTight(x: string)
    decreases |x|, 2
  {
    match TightOf(x)
    case Product(l, r) => PlainHeads(l) && PlainHeads(r)
    case LoneSlash => true
    case Index(base, index) => PlainHeads(base) && PlainHeads(index)
    case Other =>
      var head := CallHead(x);
      if !MayBeCalled(head) then PlainRest(x)
      else (SearchedBuiltin(head.value) ==> ListedBuiltin(head.value)) && PlainArguments(x, |head.value|)
  }

  predicate PlainArguments(x: string, head: nat)
    requires head < |x|
    decreases |x|, 1
  {
    forall i :: 0 <= i < Arity(x, head) ==> PlainHeads(Argument(x, head, i))
  }

  predicate PlainRest(x: string)
    decreases |x|, 1
  {
    if x != [] && (x[0] == '+' || x[0] == '!') then PlainHeads(x[1..])
    else if x != [] && x[0] == '-' then AllDigits(Trim(x[1..])) || PlainHeads(Trim(x[1..]))
    else if WrapsWhole(x) then PlainHeads(x[1..|x| - 1])
    else true
  }

  /**
   No sign anywhere in the expression is stray, and no call of a builtin's name
   goes to a declared function of that name because the builtin does not take it.
   */
  predicate CleanSigns(e: string, b: Bound)
    decreases |e|, 3
  {
    var x := Trim(e);
    match FormOf(x)
    case Empty => true
    case Logical(l, r) => CleanSigns(l, b) && CleanSigns(r, b)
    case Equality(l, r) => CleanSigns(l, b) && CleanSigns(r, b)
    case Ordering(l, r) => CleanSigns(l, b) && CleanSigns(r, b)
    case Additive =>
      var k := Split(x, ADDITIVE);
      NoStraySign(x) && if k < 0 then CleanTight(x, b) else CleanSigns(x[..k], b) && CleanSigns(x[k + 1..], b)
  }

  predicate CleanTight(x: string, b: Bound)
    decreases |x|, 2
  {
    match TightOf(x)
    case Product(l, r) => CleanSigns(l, b) && CleanSigns(r, b)
    case LoneSlash => true
    case Index(base, index) => CleanSigns(base, b) && CleanSigns(index, b)
    case Other =>
      var head := CallHead(x);
      if !MayBeCalled(head) then CleanRest(x, b)
      else
        && (ListedBuiltin(head.value) && b.signatureOf(head.value).Some? ==>
              LowerCall(x, |head.value|, LowerBuiltin(head.value).Parameters(), b))
        && CleanArguments(x, |head.value|, b)
  }

  predicate CleanArguments(x: string, head: nat, b: Bound)
    requires head < |x|
    decreases |x|, 1
  {
    forall i :: 0 <= i < Arity(x, head) ==> CleanSigns(Argument(x, head, i), b)
  }

  predicate CleanRest(x: string, b: Bound)
    decreases |x|, 1
  {
    if x != [] && (x[0] == '+' || x[0] == '!') then CleanSigns(x[1..], b)
    else if x != [] && x[0] == '-' then AllDigits(Trim(x[1..])) || CleanSigns(Trim(x[1..]), b)
    else if WrapsWhole(x) then CleanSigns(x[1..|x| - 1], b)
    else true
  }

  /** One typing gives what the other gives where the condition holds, and nothing where it does not. */
  ghost predicate Agrees(holds: bool, from: Option<Kind>, to: Option<Kind>) {
    from.Some? ==> to == if holds then from else None
  }

  lemma NothingAgrees(holds: bool, to: Option<Kind>)
    ensures Agrees(holds, None, to)
  {}

  // ----- what cannot be anything but a call -----

  lemma RestFails(x: string, b: Bound)
    requires '(' in x && x[0] !in "+-!(\""
    ensures ProfileRest(x, b).None? && LowerRest(x, b).None?
  {
    var i :| 0 <= i < |x| && x[i] == '(';
    assert !IsIdentifier(x[i]) && !IsDigit(x[i]);
    assert !AllDigits(x) && !ValidName(x);
  }

  lemma {:induction false} JoinedLetters(names: seq<string>, i: nat)
    requires i < |Joined(names)| && forall k :: 0 <= k < |names| ==> ValidName(names[k])
    ensures Joined(names)[i] == '|' || IsIdentifier(Joined(names)[i])
  {
    if names != [] && i > 0 {
      if i <= |names[0]| {
        assert Joined(names)[i] == names[0][i - 1];
      } else {
        JoinedLetters(names[1..], i - 1 - |names[0]|);
      }
    }
  }

  lemma {:induction false} OccursLetters(needle: string, haystack: string, i: nat)
    requires Occurs(needle, haystack) && i < |needle|
    ensures needle[i] in haystack
  {
    if !(needle <= haystack) { OccursLetters(needle, haystack[1..], i); }
  }

  lemma BuiltinsAreNames()
    ensures forall k :: 0 <= k < |BUILTINS| ==> ValidName(BUILTINS[k])
  {
  }

  /** A head the search finds is made of name characters and bars. */
  lemma SearchedLetters(head: string, i: nat)
    requires SearchedBuiltin(head) && i < |head|
    ensures head[i] == '|' || IsIdentifier(head[i])
  {
    hide Joined, Occurs;
    var needle := "|" + head + "|";
    BuiltinsAreNames();
    SearchedIsJoined();
    OccursLetters(needle, Joined(BUILTINS), i + 1);
    assert needle[i + 1] == head[i];
    var j :| 0 <= j < |Joined(BUILTINS)| && Joined(BUILTINS)[j] == head[i];
    JoinedLetters(BUILTINS, j);
  }

  lemma CallStarts(x: string, head: string, b: Bound)
    requires CallHead(x) == Some(head) && head != [] && (head[0] == '|' || IsIdentifier(head[0]))
    ensures ProfileRest(x, b).None? && LowerRest(x, b).None?
  {
    assert x[0] == head[0];
    RestFails(x, b);
  }

  lemma BuiltinStarts(x: string, head: string, b: Bound)
    requires CallHead(x) == Some(head) && SearchedBuiltin(head)
    ensures LowerRest(x, b).None? && ProfileRest(x, b).None?
  {
    hide Joined, LowerRest, ProfileRest, SearchedBuiltin;
    if head == [] { EmptyHead(); } else { SearchedLetters(head, 0); }
    CallStarts(x, head, b);
  }

  /** Whatever is called is found by a head that may be. */
  lemma CalledMayBe(head: string, b: Bound)
    requires FindsNames(b)
    ensures SearchedBuiltin(head) || ListedBuiltin(head) || b.signatureOf(head).Some? ==> MayBeCalled(Some(head))
  {
    hide SearchedBuiltin, ListedBuiltin;
    BuiltinTests(head);
    if SearchedBuiltin(head) {
      if head == [] { EmptyHead(); } else { SearchedLetters(head, 0); }
    }
  }

  /** No two bars are adjacent between the names. */
  lemma EmptyHead()
    ensures !SearchedBuiltin("")
  {
    hide SearchedBuiltin;
    BuiltinTests("");
    BuiltinsAreNames();
  }

  /** A head found by the search but not a builtin's name is declared nowhere. */
  lemma BarHeadUndeclared(head: string, b: Bound)
    requires FindsNames(b) && SearchedBuiltin(head) && !ListedBuiltin(head)
    ensures b.signatureOf(head).None?
  {
    hide SearchedBuiltin, ListedBuiltin;
    BuiltinTests(head);
    forall i | 0 <= i < |head| ensures head[i] == '|' || IsIdentifier(head[i]) { SearchedLetters(head, i); }
    assert BarredName(head);
  }

  // ----- calls, from the validator to the lowerer -----

  /** With every argument agreeing, a call the validator types is lowered exactly when its arguments are plain. */
  lemma CallAgrees(x: string, head: nat, ps: seq<Parameter>, b: Bound)
    requires head < |x| && ProfileCall(x, head, ps, b)
    requires forall i :: 0 <= i < Arity(x, head) ==>
      Agrees(PlainHeads(Argument(x, head, i)), Profile(Argument(x, head, i), b), Lower(Argument(x, head, i), b))
    ensures LowerCall(x, head, ps, b) <==> PlainArguments(x, head)
    ensures !PlainArguments(x, head) ==> forall qs :: !LowerCall(x, head, qs, b)
  {
    hide Profile, Lower, PlainHeads, Argument, Arity;
    if !PlainArguments(x, head) {
      var i :| 0 <= i < Arity(x, head) && !PlainHeads(Argument(x, head, i));
      assert Fits(Profile(Argument(x, head, i), b), ps[i]);
      forall qs ensures !LowerCall(x, head, qs, b) {
        assert i < |qs| ==> !Fits(Lower(Argument(x, head, i), b), qs[i]);
      }
    }
  }

  lemma BuiltinAgrees(x: string, head: string, b: Bound)
    requires FindsNames(b) && TightOf(x).Other? && CallHead(x) == Some(head) && SearchedBuiltin(head)
    requires forall i :: 0 <= i < Arity(x, |head|) ==>
      Agrees(PlainHeads(Argument(x, |head|, i)), Profile(Argument(x, |head|, i), b), Lower(Argument(x, |head|, i), b))
    ensures Agrees(PlainTight(x), ProfileTight(x, b), LowerTight(x, b))
  {
    TightsAgree(x);
    hide TightOf, LoweredTight, SearchedBuiltin, ListedBuiltin, ProfileBuiltin, LowerBuiltin, ProfileCall, LowerCall, PlainArguments, ProfileRest, LowerRest, Arity, Argument;
    BuiltinTests(head);
    CalledMayBe(head, b);
    TablesAgree(head);
    if ProfileTight(x, b).Some? {
      CallAgrees(x, |head|, ProfileBuiltin(head).Parameters(), b);
      BuiltinStarts(x, head, b);
      if !ListedBuiltin(head) { BarHeadUndeclared(head, b); }
    }
  }

  lemma UserAgrees(x: string, head: string, b: Bound)
    requires FindsNames(b) && TightOf(x).Other? && CallHead(x) == Some(head) && !SearchedBuiltin(head)
    requires b.signatureOf(head).Some?
    requires forall i :: 0 <= i < Arity(x, |head|) ==>
      Agrees(PlainHeads(Argument(x, |head|, i)), Profile(Argument(x, |head|, i), b), Lower(Argument(x, |head|, i), b))
    ensures Agrees(PlainTight(x), ProfileTight(x, b), LowerTight(x, b))
  {
    TightsAgree(x);
    hide TightOf, LoweredTight, SearchedBuiltin, ListedBuiltin, ProfileBuiltin, LowerBuiltin, ProfileCall, LowerCall, PlainArguments, ProfileRest, LowerRest, Arity, Argument;
    BuiltinTests(head);
    CallStarts(x, head, b);
    CalledMayBe(head, b);
    if ProfileTight(x, b).Some? {
      CallAgrees(x, |head|, UserParameters(b.signatureOf(head).value), b);
    }
  }

  // ----- the agreement, from the validator to the lowerer -----

  lemma PairAgrees(l: string, r: string, b: Bound)
    requires Agrees(PlainHeads(l), Profile(l, b), Lower(l, b)) && Agrees(PlainHeads(r), Profile(r, b), Lower(r, b))
    ensures Profile(l, b).Some? && Profile(r, b).Some? ==>
      if PlainHeads(l) && PlainHeads(r) then Lower(l, b) == Profile(l, b) && Lower(r, b) == Profile(r, b)
      else Lower(l, b).None? || Lower(r, b).None?
  {
    hide Profile, Lower, PlainHeads;
  }

  lemma {:induction false} RestAgrees(x: string, b: Bound)
    requires FindsNames(b)
    ensures Agrees(PlainRest(x), ProfileRest(x, b), LowerRest(x, b))
    decreases |x|, 1
  {
    hide Profile, Lower, PlainHeads, Trim, AllDigits, AtomKind, Value;
    if x != [] && (x[0] == '+' || x[0] == '!') {
      Agreement(x[1..], b);
    } else if x != [] && x[0] == '-' {
      Agreement(Trim(x[1..]), b);
    } else if WrapsWhole(x) {
      Agreement(x[1..|x| - 1], b);
    }
  }

  lemma {:induction false} TightAgrees(x: string, b: Bound)
    requires FindsNames(b)
    ensures Agrees(PlainTight(x), ProfileTight(x, b), LowerTight(x, b))
    decreases |x|, 3
  {
    TightsAgree(x);
    hide Profile, Lower, PlainHeads, ProfileRest, LowerRest, PlainRest, SearchedBuiltin, ProfileBuiltin, LowerBuiltin, ListedBuiltin, ProfileCall, LowerCall,
         PlainArguments, Arity, Argument;
    match TightOf(x)
    case Product(l, r) =>
      Agreement(l, b);
      Agreement(r, b);
      PairAgrees(l, r, b);
    case LoneSlash =>
    case Index(base, index) =>
      Agreement(base, b);
      Agreement(index, b);
      PairAgrees(base, index, b);
    case Other =>
      OtherAgrees(x, b);
  }

  lemma {:induction false} OtherAgrees(x: string, b: Bound)
    requires FindsNames(b) && TightOf(x).Other?
    ensures Agrees(PlainTight(x), ProfileTight(x, b), LowerTight(x, b))
    decreases |x|, 2
  {
    TightsAgree(x);
    hide Profile, Lower, PlainHeads, TightOf, LoweredTight, ProfileRest, LowerRest, PlainRest, SearchedBuiltin, ProfileBuiltin, LowerBuiltin, ListedBuiltin, ProfileCall, LowerCall,
         PlainArguments, Arity, Argument, Agrees;
    var head := CallHead(x);
    if head.Some? && (SearchedBuiltin(head.value) || b.signatureOf(head.value).Some?) {
      forall i | 0 <= i < Arity(x, |head.value|)
        ensures Agrees(PlainHeads(Argument(x, |head.value|, i)), Profile(Argument(x, |head.value|, i), b), Lower(Argument(x, |head.value|, i), b))
      {
        Agreement(Argument(x, |head.value|, i), b);
      }
      if SearchedBuiltin(head.value) { BuiltinAgrees(x, head.value, b); } else { UserAgrees(x, head.value, b); }
    } else {
      if head.Some? {
        BuiltinTests(head.value);
        if MayBeCalled(head) {
          CallStarts(x, head.value, b);
          NothingAgrees(PlainTight(x), LowerTight(x, b));
        }
      }
      RestAgrees(x, b);
      NoCall(x, b);
    }
  }

  /** Without a builtin or declared head, both typings go on with the rest. */
  lemma NoCall(x: string, b: Bound)
    requires TightOf(x).Other?
    requires CallHead(x).Some? ==>
      !SearchedBuiltin(CallHead(x).value) && !ListedBuiltin(CallHead(x).value) && b.signatureOf(CallHead(x).value).None?
    ensures ProfileTight(x, b) == ProfileRest(x, b) && LowerTight(x, b) == LowerRest(x, b)
    ensures !MayBeCalled(CallHead(x)) ==> PlainTight(x) == PlainRest(x) && CleanTight(x, b) == CleanRest(x, b)
  {
    TightsAgree(x);
    hide TightOf, LoweredTight, ProfileRest, LowerRest, PlainRest, CleanRest, SearchedBuiltin, ProfileBuiltin, LowerBuiltin, ListedBuiltin, ProfileCall, LowerCall,
         PlainArguments, CleanArguments;
  }

  /**
   Whenever the validator gives an expression a kind, the lowerer succeeds with
   that kind if every call head is plain, and fails if one is not.
   */
  lemma {:induction false} Agreement(e: string, b: Bound)
    requires FindsNames(b)
    ensures Agrees(PlainHeads(e), Profile(e, b), Lower(e, b))
    decreases |e|, 5
  {
    var x := Trim(e);
    match FormOf(x)
    case Empty =>
    case Logical(l, r) => HalvesAgree(e, l, r, b);
    case Equality(l, r) => HalvesAgree(e, l, r, b);
    case Ordering(l, r) => HalvesAgree(e, l, r, b);
    case Additive =>
      if Split(x, ADDITIVE) < 0 { SingleAgrees(e, b); } else { SumAgrees(e, b); }
  }

  lemma {:induction false} HalvesAgree(e: string, l: string, r: string, b: Bound)
    requires FindsNames(b) && |l| < |e| && |r| < |e|
    requires var f := FormOf(Trim(e)); f == Logical(l, r) || f == Equality(l, r) || f == Ordering(l, r)
    ensures Agrees(PlainHeads(e), Profile(e, b), Lower(e, b))
    decreases |e|, 4
  {
    FormsAgree(Trim(e));
    hide Trim, FormOf, LoweredForm;
    Agreement(l, b);
    Agreement(r, b);
    PairAgrees(l, r, b);
  }

  lemma {:induction false} SingleAgrees(e: string, b: Bound)
    requires FindsNames(b) && FormOf(Trim(e)).Additive? && Split(Trim(e), ADDITIVE) < 0
    ensures Agrees(PlainHeads(e), Profile(e, b), Lower(e, b))
    decreases |e|, 4
  {
    hide Trim, FormOf, Split, Profile, Lower, PlainHeads, ProfileTight, LowerTight, PlainTight, NoStraySign;
    ScanIsSplitting(e, b);
    LowerSingle(e, b);
    TightAgrees(Trim(e), b);
  }

  lemma LowerSingle(e: string, b: Bound)
    requires FormOf(Trim(e)).Additive? && Split(Trim(e), ADDITIVE) < 0
    ensures Lower(e, b) == LowerTight(Trim(e), b)
    ensures PlainHeads(e) == PlainTight(Trim(e))
    ensures CleanSigns(e, b) == (NoStraySign(Trim(e)) && CleanTight(Trim(e), b))
    ensures SplitRightmost(e, b) == ProfileTight(Trim(e), b)
  {
    FormsAgree(Trim(e));
    hide Trim, FormOf, LoweredForm, Split, LowerTight, PlainTight, CleanTight, NoStraySign, ProfileTight;
  }

  lemma LowerSplits(e: string, b: Bound)
    requires FormOf(Trim(e)).Additive? && Split(Trim(e), ADDITIVE) >= 0
    ensures var x := Trim(e); var k := Split(x, ADDITIVE);
      && Lower(e, b) == Combine(x[k], Lower(x[..k], b), Lower(x[k + 1..], b))
      && SplitRightmost(e, b) == Combine(x[k], Profile(x[..k], b), Profile(x[k + 1..], b))
      && PlainHeads(e) == (PlainHeads(x[..k]) && PlainHeads(x[k + 1..]))
      && CleanSigns(e, b) == (NoStraySign(x) && CleanSigns(x[..k], b) && CleanSigns(x[k + 1..], b))
  {
    FormsAgree(Trim(e));
    hide Trim, FormOf, LoweredForm, LastBefore, LowerTight, PlainTight, CleanTight, NoStraySign, Profile;
  }

  lemma {:induction false} SumAgrees(e: string, b: Bound)
    requires FindsNames(b) && FormOf(Trim(e)).Additive? && Split(Trim(e), ADDITIVE) >= 0
    ensures Agrees(PlainHeads(e), Profile(e, b), Lower(e, b))
    decreases |e|, 4
  {
    hide Trim, FormOf, LastBefore, Profile, Lower, PlainHeads, CleanSigns, NoStraySign, SplitRightmost;
    var x := Trim(e);
    var k := Split(x, ADDITIVE);
    Agreement(x[..k], b);
    Agreement(x[k + 1..], b);
    PairAgrees(x[..k], x[k + 1..], b);
    ScanIsSplitting(e, b);
    LowerSplits(e, b);
  }

  // ----- the agreement, from the lowerer to the validator -----

  /** With every argument agreeing, a call the lowerer types is typed by the validator exactly when its arguments are clean. */
  lemma CallReturns(x: string, head: nat, ps: seq<Parameter>, b: Bound)
    requires head < |x| && LowerCall(x, head, ps, b)
    requires forall i :: 0 <= i < Arity(x, head) ==>
      Agrees(CleanSigns(Argument(x, head, i), b), Lower(Argument(x, head, i), b), Profile(Argument(x, head, i), b))
    ensures ProfileCall(x, head, ps, b) <==> CleanArguments(x, head, b)
  {
    hide Profile, Lower, CleanSigns, Argument, Arity;
    if !CleanArguments(x, head, b) {
      var i :| 0 <= i < Arity(x, head) && !CleanSigns(Argument(x, head, i), b);
      assert Fits(Lower(Argument(x, head, i), b), ps[i]);
    }
  }

  /** Where the lowerer types every argument, the validator's fitting them means the lowerer's fitting them. */
  lemma FitsBoth(x: string, head: nat, ps: seq<Parameter>, qs: seq<Parameter>, b: Bound)
    requires head < |x| && LowerCall(x, head, qs, b) && ProfileCall(x, head, ps, b)
    requires forall i :: 0 <= i < Arity(x, head) ==>
      Agrees(CleanSigns(Argument(x, head, i), b), Lower(Argument(x, head, i), b), Profile(Argument(x, head, i), b))
    ensures LowerCall(x, head, ps, b)
  {
    hide Profile, Lower, CleanSigns, Argument, Arity;
    forall i | 0 <= i < |ps| ensures Fits(Lower(Argument(x, head, i), b), ps[i]) {
      assert Fits(Lower(Argument(x, head, i), b), qs[i]);
      assert Fits(Profile(Argument(x, head, i), b), ps[i]);
    }
  }

  lemma BuiltinReturns(x: string, head: string, b: Bound)
    requires FindsNames(b) && TightOf(x).Other? && CallHead(x) == Some(head) && ListedBuiltin(head)
    requires forall i :: 0 <= i < Arity(x, |head|) ==>
      Agrees(CleanSigns(Argument(x, |head|, i), b), Lower(Argument(x, |head|, i), b), Profile(Argument(x, |head|, i), b))
    ensures Agrees(CleanTight(x, b), LowerTight(x, b), ProfileTight(x, b))
  {
    TightsAgree(x);
    hide TightOf, LoweredTight, SearchedBuiltin, ListedBuiltin, ProfileBuiltin, LowerBuiltin, ProfileCall, LowerCall, CleanArguments, ProfileRest, LowerRest, Arity,
         Argument, UserParameters;
    BuiltinTests(head);
    BuiltinStarts(x, head, b);
    CalledMayBe(head, b);
    TablesAgree(head);
    var ps := ProfileBuiltin(head).Parameters();
    if LowerCall(x, |head|, ps, b) {
      CallReturns(x, |head|, ps, b);
    } else if LowerTight(x, b).Some? {
      var qs := UserParameters(b.signatureOf(head).value);
      if ProfileCall(x, |head|, ps, b) { FitsBoth(x, |head|, ps, qs, b); }
    }
  }

  lemma UserReturns(x: string, head: string, b: Bound)
    requires FindsNames(b) && TightOf(x).Other? && CallHead(x) == Some(head) && !ListedBuiltin(head)
    requires b.signatureOf(head).Some?
    requires forall i :: 0 <= i < Arity(x, |head|) ==>
      Agrees(CleanSigns(Argument(x, |head|, i), b), Lower(Argument(x, |head|, i), b), Profile(Argument(x, |head|, i), b))
    ensures Agrees(CleanTight(x, b), LowerTight(x, b), ProfileTight(x, b))
  {
    TightsAgree(x);
    hide TightOf, LoweredTight, SearchedBuiltin, ListedBuiltin, ProfileBuiltin, LowerBuiltin, ProfileCall, LowerCall, CleanArguments, ProfileRest, LowerRest, Arity,
         Argument, UserParameters;
    if SearchedBuiltin(head) { BarHeadUndeclared(head, b); }
    CallStarts(x, head, b);
    CalledMayBe(head, b);
    if LowerTight(x, b).Some? {
      CallReturns(x, |head|, UserParameters(b.signatureOf(head).value), b);
    }
  }

  lemma PairReturns(l: string, r: string, b: Bound)
    requires Agrees(CleanSigns(l, b), Lower(l, b), Profile(l, b)) && Agrees(CleanSigns(r, b), Lower(r, b), Profile(r, b))
    ensures Lower(l, b).Some? && Lower(r, b).Some? ==>
      if CleanSigns(l, b) && CleanSigns(r, b) then Lower(l, b) == Profile(l, b) && Lower(r, b) == Profile(r, b)
      else Profile(l, b).None? || Profile(r, b).None?
  {
    hide Profile, Lower, CleanSigns;
  }

  lemma {:induction false} RestReturns(x: string, b: Bound)
    requires FindsNames(b)
    ensures Agrees(CleanRest(x, b), LowerRest(x, b), ProfileRest(x, b))
    decreases |x|, 1
  {
    hide Profile, Lower, CleanSigns, Trim, AllDigits, AtomKind, Value;
    if x != [] && (x[0] == '+' || x[0] == '!') {
      Converse(x[1..], b);
    } else if x != [] && x[0] == '-' {
      Converse(Trim(x[1..]), b);
    } else if WrapsWhole(x) {
      Converse(x[1..|x| - 1], b);
    }
  }

  lemma {:induction false} TightReturns(x: string, b: Bound)
    requires FindsNames(b)
    ensures Agrees(CleanTight(x, b), LowerTight(x, b), ProfileTight(x, b))
    decreases |x|, 3
  {
    TightsAgree(x);
    hide Profile, Lower, CleanSigns, ProfileRest, LowerRest, CleanRest, SearchedBuiltin, ProfileBuiltin, LowerBuiltin, ListedBuiltin, ProfileCall, LowerCall,
         CleanArguments, Arity, Argument;
    match TightOf(x)
    case Product(l, r) =>
      Converse(l, b);
      Converse(r, b);
      PairReturns(l, r, b);
    case LoneSlash =>
    case Index(base, index) =>
      Converse(base, b);
      Converse(index, b);
      PairReturns(base, index, b);
    case Other =>
      OtherReturns(x, b);
  }

  lemma {:induction false} OtherReturns(x: string, b: Bound)
    requires FindsNames(b) && TightOf(x).Other?
    ensures Agrees(CleanTight(x, b), LowerTight(x, b), ProfileTight(x, b))
    decreases |x|, 2
  {
    TightsAgree(x);
    hide Profile, Lower, CleanSigns, TightOf, LoweredTight, ProfileRest, LowerRest, CleanRest, SearchedBuiltin, ProfileBuiltin, LowerBuiltin, ListedBuiltin, ProfileCall, LowerCall,
         CleanArguments, Arity, Argument, Agrees;
    var head := CallHead(x);
    if head.Some? && (ListedBuiltin(head.value) || b.signatureOf(head.value).Some?) {
      forall i | 0 <= i < Arity(x, |head.value|)
        ensures Agrees(CleanSigns(Argument(x, |head.value|, i), b), Lower(Argument(x, |head.value|, i), b), Profile(Argument(x, |head.value|, i), b))
      {
        Converse(Argument(x, |head.value|, i), b);
      }
      if ListedBuiltin(head.value) { BuiltinReturns(x, head.value, b); } else { UserReturns(x, head.value, b); }
    } else if head.Some? && SearchedBuiltin(head.value) {
      BuiltinStarts(x, head.value, b);
      LowersRest(x, b);
    } else {
      if MayBeCalled(head) {
        CallStarts(x, head.value, b);
        NothingAgrees(CleanTight(x, b), ProfileTight(x, b));
      }
      RestReturns(x, b);
      NoCall(x, b);
    }
  }

  lemma LowersRest(x: string, b: Bound)
    requires TightOf(x).Other? && CallHead(x).Some?
    requires !ListedBuiltin(CallHead(x).value) && b.signatureOf(CallHead(x).value).None? && LowerRest(x, b).None?
    ensures Agrees(CleanTight(x, b), LowerTight(x, b), ProfileTight(x, b))
  {
    TightsAgree(x);
    hide TightOf, LoweredTight, ProfileTight, LowerRest, ProfileBuiltin, LowerBuiltin, LowerCall, ListedBuiltin, CleanTight;
  }

  /**
   Whenever the lowerer succeeds with a kind, the validator gives that kind if
   the signs are clean, and refuses if they are not.
   */
  lemma {:induction false} Converse(e: string, b: Bound)
    requires FindsNames(b)
    ensures Agrees(CleanSigns(e, b), Lower(e, b), Profile(e, b))
    decreases |e|, 5
  {
    var x := Trim(e);
    match FormOf(x)
    case Empty =>
    case Logical(l, r) => HalvesReturn(e, l, r, b);
    case Equality(l, r) => HalvesReturn(e, l, r, b);
    case Ordering(l, r) => HalvesReturn(e, l, r, b);
    case Additive => AdditiveReturns(e, b);
  }

  lemma {:induction false} HalvesReturn(e: string, l: string, r: string, b: Bound)
    requires FindsNames(b) && |l| < |e| && |r| < |e|
    requires var f := FormOf(Trim(e)); f == Logical(l, r) || f == Equality(l, r) || f == Ordering(l, r)
    ensures Agrees(CleanSigns(e, b), Lower(e, b), Profile(e, b))
    decreases |e|, 4
  {
    FormsAgree(Trim(e));
    hide Trim, FormOf, LoweredForm;
    Converse(l, b);
    Converse(r, b);
    PairReturns(l, r, b);
  }

  lemma {:induction false} AdditiveReturns(e: string, b: Bound)
    requires FindsNames(b) && FormOf(Trim(e)).Additive?
    ensures Agrees(CleanSigns(e, b), Lower(e, b), Profile(e, b))
    decreases |e|, 4
  {
    hide Trim, FormOf, LastBefore, Profile, Lower, CleanSigns, ProfileTight, LowerTight, CleanTight, NoStraySign, SplitRightmost;
    var x := Trim(e);
    var k := Split(x, ADDITIVE);
    ScanIsSplitting(e, b);
    if k < 0 {
      LowerSingle(e, b);
      TightReturns(x, b);
    } else {
      Converse(x[..k], b);
      Converse(x[k + 1..], b);
      PairReturns(x[..k], x[k + 1..], b);
      LowerSplits(e, b);
    }
  }

  /** The two typings give the same answer exactly where each one's kinds meet the other's condition. */
  lemma SameAnswer(e: string, b: Bound)
    requires FindsNames(b)
    ensures Profile(e, b) == Lower(e, b) <==>
      (Profile(e, b).Some? ==> PlainHeads(e)) && (Lower(e, b).Some? ==> CleanSigns(e, b))
  {
    hide Profile, Lower, PlainHeads, CleanSigns;
    Agreement(e, b);
    Converse(e, b);
  }

  // ----- where no builtin's name is declared again -----

  ghost predicate Unshadowed(b: Bound) {
    forall head :: ListedBuiltin(head) ==> b.signatureOf(head).None?
  }

  /** Nothing declared and nothing bound. */
  const NO_NAMES := Bound(_ => None, _ => None)

  /** What is declared then says nothing about the signs: the text alone decides. */
  lemma {:induction false} CleanIsTextual(e: string, b: Bound)
    requires Unshadowed(b)
    ensures CleanSigns(e, b) == CleanSigns(e, NO_NAMES)
    decreases |e|, 3
  {
    hide Trim, FormOf, CleanTight, NoStraySign;
    var x := Trim(e);
    match FormOf(x)
    case Empty =>
    case Logical(l, r) => CleanIsTextual(l, b); CleanIsTextual(r, b);
    case Equality(l, r) => CleanIsTextual(l, b); CleanIsTextual(r, b);
    case Ordering(l, r) => CleanIsTextual(l, b); CleanIsTextual(r, b);
    case Additive =>
      var k := Split(x, ADDITIVE);
      if k < 0 {
        TightIsTextual(x, b);
      } else {
        CleanIsTextual(x[..k], b);
        CleanIsTextual(x[k + 1..], b);
      }
  }

  lemma {:induction false} TightIsTextual(x: string, b: Bound)
    requires Unshadowed(b)
    ensures CleanTight(x, b) == CleanTight(x, NO_NAMES)
    decreases |x|, 2
  {
    TightsAgree(x);
    hide CleanSigns, TightOf, LoweredTight, CleanRest, ListedBuiltin, ProfileBuiltin, LowerBuiltin, LowerCall, Arity, Argument;
    match TightOf(x)
    case Product(l, r) => CleanIsTextual(l, b); CleanIsTextual(r, b);
    case LoneSlash =>
    case Index(base, index) => CleanIsTextual(base, b); CleanIsTextual(index, b);
    case Other =>
      RestIsTextual(x, b);
      var head := CallHead(x);
      if head.Some? {
        forall i | 0 <= i < Arity(x, |head.value|)
          ensures CleanSigns(Argument(x, |head.value|, i), b) == CleanSigns(Argument(x, |head.value|, i), NO_NAMES)
        {
          CleanIsTextual(Argument(x, |head.value|, i), b);
        }
      }
  }

  lemma {:induction false} RestIsTextual(x: string, b: Bound)
    requires Unshadowed(b)
    ensures CleanRest(x, b) == CleanRest(x, NO_NAMES)
    decreases |x|, 1
  {
    hide CleanSigns, Trim, AllDigits;
    if x != [] && (x[0] == '+' || x[0] == '!') {
      CleanIsTextual(x[1..], b);
    } else if x != [] && x[0] == '-' {
      CleanIsTextual(Trim(x[1..]), b);
    } else if WrapsWhole(x) {
      CleanIsTextual(x[1..|x| - 1], b);
    }
  }
}
