/** What a call of each builtin takes and gives, in both typings. */
module Stage1Builtins {
  import opened Wrappers
  import opened Stage1Scanning
  import opened Stage1Typing
  import opened Stage1Agreement

  /** The builtin of that name takes arguments of those kinds and gives that kind. */
  predicate Rule(head: string, ks: seq<Kind>, result: Kind) {
    || (head == "args" && ks == [] && result == ListKind)
    || (head == "chars" && ks == [TextKind] && result == ListKind)
    || (head == "contains" && ks == [TextKind, TextKind] && result == BoolKind)
    || (head == "fail" && ks == [] && result == VoidKind)
    || (head == "find" && ks == [TextKind, TextKind] && result == IntKind)
    || (head in ["is_digit", "is_space", "is_xid_continue"] && ks == [TextKind] && result == BoolKind)
    || (head == "len" && (ks == [TextKind] || ks == [ListKind]) && result == IntKind)
    || (head == "read_text" && ks == [TextKind] && result == TextKind)
    || (head == "starts_with" && ks == [TextKind, TextKind] && result == BoolKind)
    || (head == "text_slice" && ks == [TextKind, IntKind, IntKind] && result == TextKind)
    || (head == "trim" && ks == [TextKind] && result == TextKind)
    || (head == "validate_unicode_source" && ks == [TextKind] && result == TextKind)
    || (head == "write_text" && ks == [TextKind, TextKind] && result == VoidKind)
  }

  predicate FitAll(ks: seq<Kind>, ps: seq<Parameter>) {
    |ks| == |ps| && forall i :: 0 <= i < |ps| ==> Fits(Some(ks[i]), ps[i])
  }

  lemma RuleOfTable(head: string, ks: seq<Kind>, result: Kind)
    requires ListedBuiltin(head)
    ensures Rule(head, ks, result) <==> FitAll(ks, ProfileBuiltin(head).Parameters()) && ProfileBuiltin(head).result == result
  {}

  /** The arguments of a call, typed by one of the typings. */
  ghost predicate HasKinds(x: string, head: nat, ks: seq<Kind>, kindOf: string -> Option<Kind>)
    requires head <= |x|
  {
    Arity(x, head) == |ks| && forall i :: 0 <= i < |ks| ==> kindOf(Argument(x, head, i)) == Some(ks[i])
  }

  /** Kinds that fit are the kinds some arguments have. */
  lemma FittingKinds(x: string, head: nat, ps: seq<Parameter>, kindOf: string -> Option<Kind>) returns (ks: seq<Kind>)
    requires head <= |x| && Arity(x, head) == |ps| && forall i :: 0 <= i < |ps| ==> Fits(kindOf(Argument(x, head, i)), ps[i])
    ensures HasKinds(x, head, ks, kindOf) && FitAll(ks, ps)
  {
    hide Arity, Argument;
    ks := seq(|ps|, i requires 0 <= i < |ps| => kindOf(Argument(x, head, i)).value);
  }

  lemma ProfiledCall(x: string, head: string, b: Bound)
    requires TightOf(x).Other? && CallHead(x) == Some(head) && ListedBuiltin(head)
    ensures ProfileTight(x, b) == OnlyIf(ProfileCall(x, |head|, ProfileBuiltin(head).Parameters(), b), ProfileBuiltin(head).result)
  {
    hide TightOf, CallHead, SearchedBuiltin, ListedBuiltin, ProfileBuiltin, ProfileCall, ProfileRest;
    BuiltinTests(head);
  }

  lemma LoweredCall(x: string, head: string, b: Bound)
    requires TightOf(x).Other? && CallHead(x) == Some(head) && ListedBuiltin(head) && b.signatureOf(head).None?
    ensures LowerTight(x, b) == OnlyIf(LowerCall(x, |head|, LowerBuiltin(head).Parameters(), b), LowerBuiltin(head).result)
  {
    BuiltinTests(head);
    BuiltinStarts(x, head, b);
    TightsAgree(x);
    hide TightOf, LoweredTight, CallHead, SearchedBuiltin, ListedBuiltin, LowerBuiltin, LowerCall, LowerRest;
  }

  lemma ProfiledArguments(x: string, head: nat, ps: seq<Parameter>, b: Bound)
    requires head < |x|
    ensures ProfileCall(x, head, ps, b) <==> exists ks :: HasKinds(x, head, ks, e => Profile(e, b)) && FitAll(ks, ps)
  {
    hide Profile, Arity, Argument, Fits;
    if ProfileCall(x, head, ps, b) {
      var ks := FittingKinds(x, head, ps, e => Profile(e, b));
    }
  }

  lemma LoweredArguments(x: string, head: nat, ps: seq<Parameter>, b: Bound)
    requires head < |x|
    ensures LowerCall(x, head, ps, b) <==> exists ks :: HasKinds(x, head, ks, e => Lower(e, b)) && FitAll(ks, ps)
  {
    hide Lower, Arity, Argument, Fits;
    if LowerCall(x, head, ps, b) {
      var ks := FittingKinds(x, head, ps, e => Lower(e, b));
    }
  }

  /** The validator gives a builtin's call a kind exactly when its arguments have the kinds the builtin takes. */
  lemma ProfiledBuiltin(x: string, head: string, b: Bound, result: Kind)
    requires TightOf(x).Other? && CallHead(x) == Some(head) && ListedBuiltin(head)
    ensures ProfileTight(x, b) == Some(result) <==>
      exists ks :: HasKinds(x, |head|, ks, e => Profile(e, b)) && Rule(head, ks, result)
  {
    hide TightOf, CallHead, ListedBuiltin, ProfileBuiltin, ProfileTight, ProfileCall, HasKinds, FitAll, Rule;
    ProfiledCall(x, head, b);
    ProfiledArguments(x, |head|, ProfileBuiltin(head).Parameters(), b);
    forall ks ensures Rule(head, ks, result) <==> FitAll(ks, ProfileBuiltin(head).Parameters()) && ProfileBuiltin(head).result == result {
      RuleOfTable(head, ks, result);
    }
  }

  /** So does the lowerer, where no function of that name is declared. */
  lemma LoweredBuiltin(x: string, head: string, b: Bound, result: Kind)
    requires TightOf(x).Other? && CallHead(x) == Some(head) && ListedBuiltin(head) && b.signatureOf(head).None?
    ensures LowerTight(x, b) == Some(result) <==>
      exists ks :: HasKinds(x, |head|, ks, e => Lower(e, b)) && Rule(head, ks, result)
  {
    hide TightOf, CallHead, ListedBuiltin, ProfileBuiltin, LowerBuiltin, LowerTight, LowerCall, HasKinds, FitAll, Rule;
    LoweredCall(x, head, b);
    TablesAgree(head);
    LoweredArguments(x, |head|, ProfileBuiltin(head).Parameters(), b);
    forall ks ensures Rule(head, ks, result) <==> FitAll(ks, ProfileBuiltin(head).Parameters()) && ProfileBuiltin(head).result == result {
      RuleOfTable(head, ks, result);
    }
  }
}
