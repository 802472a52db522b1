/** Match patterns over one algebraic data type: what they match, how they flatten, how they classify. */
module Patterns {
  import opened Wrappers

  const ARM_ALTERNATIVE_LIMIT: nat := 64
  const PATTERN_DEPTH_LIMIT: nat := 32

  datatype Pattern =
    | Wildcard
    | Name(name: string)
    | Constructor(name: string, payload: seq<Pattern>)
    | Or(choices: seq<Pattern>)
    | Parenthesized(inner: Pattern)
    | Unsupported // literal and error patterns

  /** A constructor of the type; its ordinal is its position in the declaration. */
  datatype Declared = Declared(name: string, arity: nat)

  type Adt = seq<Declared>

  /** The ordinal of the constructor of that name, if the type owns one. */
  function Ordinal(adt: Adt, name: string): (r: Option<nat>)
    ensures r.Some? ==> r.value < |adt| && adt[r.value].name == name && forall k :: 0 <= k < r.value ==> adt[k].name != name
    ensures r.None? <==> forall k :: 0 <= k < |adt| ==> adt[k].name != name
  {
    if adt == [] then None
    else if adt[0].name == name then Some(0)
    else
      var rest := Ordinal(adt[1..], name);
      if rest.Some? then Some(rest.value + 1) else None
  }

  /** A pattern matches a value, of which only the constructor's ordinal matters. */
  predicate Matches(adt: Adt, p: Pattern, v: nat) {
    match p
    case Wildcard => true
    case Name(name) => Ordinal(adt, name).Some? ==> Ordinal(adt, name).value == v
    case Constructor(name, _) => Ordinal(adt, name) == Some(v)
    case Or(choices) => exists k :: 0 <= k < |choices| && Matches(adt, choices[k], v)
    case Parenthesized(inner) => Matches(adt, inner, v)
    case Unsupported => false
  }

  // ----- flattening -----

  /** The alternatives of a pattern, tested left to right. */
  function Flatten(p: Pattern): seq<Pattern>
    decreases p, 0
  {
    match p
    case Parenthesized(inner) => Flatten(inner)
    case Or(choices) => FlattenAll(choices)
    case _ => [p]
  }

  function FlattenAll(ps: seq<Pattern>): seq<Pattern>
    decreases ps, 1
  {
    if ps == [] then [] else Flatten(ps[0]) + FlattenAll(ps[1..])
  }

  ghost predicate AnyMatches(adt: Adt, ps: seq<Pattern>, v: nat) {
    exists k :: 0 <= k < |ps| && Matches(adt, ps[k], v)
  }

  lemma AnyMatchesSplits(adt: Adt, ps: seq<Pattern>, qs: seq<Pattern>, v: nat)
    ensures AnyMatches(adt, ps + qs, v) <==> AnyMatches(adt, ps, v) || AnyMatches(adt, qs, v)
  {
    if AnyMatches(adt, ps, v) {
      var k :| 0 <= k < |ps| && Matches(adt, ps[k], v);
      assert (ps + qs)[k] == ps[k];
    }
    if AnyMatches(adt, qs, v) {
      var k :| 0 <= k < |qs| && Matches(adt, qs[k], v);
      assert (ps + qs)[|ps| + k] == qs[k];
    }
  }

  /** Flattening keeps exactly the values a pattern matches, however its or-patterns and parentheses nest. */
  lemma {:induction false} FlattenPreservesMatching(adt: Adt, p: Pattern, v: nat)
    ensures AnyMatches(adt, Flatten(p), v) <==> Matches(adt, p, v)
    decreases p, 0
  {
    match p
    case Parenthesized(inner) => FlattenPreservesMatching(adt, inner, v);
    case Or(choices) => FlattenAllPreservesMatching(adt, choices, v);
    case _ =>
      assert Flatten(p)[0] == p;
  }

  lemma {:induction false} FlattenAllPreservesMatching(adt: Adt, ps: seq<Pattern>, v: nat)
    ensures AnyMatches(adt, FlattenAll(ps), v) <==> AnyMatches(adt, ps, v)
    decreases ps, 1
  {
    if ps != [] {
      FlattenPreservesMatching(adt, ps[0], v);
      FlattenAllPreservesMatching(adt, ps[1..], v);
      AnyMatchesSplits(adt, Flatten(ps[0]), FlattenAll(ps[1..]), v);
      AnyMatchesSplits(adt, [ps[0]], ps[1..], v);
      assert [ps[0]] + ps[1..] == ps;
      assert AnyMatches(adt, [ps[0]], v) <==> Matches(adt, ps[0], v) by { assert [ps[0]][0] == ps[0]; }
    }
  }

  /** No flattened alternative is itself an or-pattern or a parenthesis. */
  lemma {:induction false} FlattenIsFlat(p: Pattern, k: nat)
    requires k < |Flatten(p)|
    ensures !Flatten(p)[k].Or? && !Flatten(p)[k].Parenthesized?
    decreases p, 0
  {
    match p
    case Parenthesized(inner) => FlattenIsFlat(inner, k);
    case Or(choices) => FlattenAllIsFlat(choices, k);
    case _ =>
  }

  lemma {:induction false} FlattenAllIsFlat(ps: seq<Pattern>, k: nat)
    requires k < |FlattenAll(ps)|
    ensures !FlattenAll(ps)[k].Or? && !FlattenAll(ps)[k].Parenthesized?
    decreases ps, 1
  {
    if k < |Flatten(ps[0])| { FlattenIsFlat(ps[0], k); } else { FlattenAllIsFlat(ps[1..], k - |Flatten(ps[0])|); }
  }

  // ----- the depth bound -----

  /** The pattern inside the grouping parentheses, if they do not nest beyond the depth. */
  function Unwrapped(p: Pattern, depth: nat): (r: Option<Pattern>)
    ensures r.Some? ==> (r.value == p || r.value < p) && Flatten(r.value) == Flatten(p) && !r.value.Parenthesized?
  {
    if !p.Parenthesized? then Some(p) else if depth == 0 then None else Unwrapped(p.inner, depth - 1)
  }

  /** The walk stays inside the depth bound: each run of parentheses, and each or-pattern below the last. */
  predicate WithinDepth(p: Pattern, depth: nat)
    decreases depth, 0
  {
    var core := Unwrapped(p, depth);
    && core.Some?
    && (core.value.Or? ==> depth > 0 && AllWithinDepth(core.value.choices, depth - 1))
  }

  predicate AllWithinDepth(ps: seq<Pattern>, depth: nat)
    decreases depth, |ps| + 1
  {
    ps != [] ==> WithinDepth(ps[0], depth) && AllWithinDepth(ps[1..], depth)
  }

  // ----- classification -----

  datatype Role = OneConstructor(ordinal: nat) | AnyWildcard | AnyBinding

  datatype BindingRole = Payload | CatchAll

  datatype Binding = BindsNothing | Binds(name: string, role: BindingRole)

  datatype Shape = Shape(role: Role, binding: Binding)

  datatype Refusal =
    | PayloadRequired
    | ForeignConstructor
    | ArityMismatch
    | NestedPayload
    | OutsideSlice

  datatype Classified = Accepted(shape: Shape) | Refused(why: Refusal)

  /** Resolves one flattened alternative against the type of the matched value. */
  function Classify(adt: Adt, p: Pattern): Classified {
    match p
    case Wildcard => Accepted(Shape(AnyWildcard, BindsNothing))
    case Name(name) =>
      var owned := Ordinal(adt, name);
      if owned.None? then Accepted(Shape(AnyBinding, Binds(name, CatchAll)))
      else if adt[owned.value].arity != 0 then Refused(PayloadRequired)
      else Accepted(Shape(OneConstructor(owned.value), BindsNothing))
    case Constructor(name, payload) =>
      var owned := Ordinal(adt, name);
      if owned.None? then Refused(ForeignConstructor)
      else if adt[owned.value].arity != |payload| || adt[owned.value].arity > 1 then Refused(ArityMismatch)
      else if |payload| == 1 && !payload[0].Wildcard? && !payload[0].Name? then Refused(NestedPayload)
      else if |payload| == 1 && payload[0].Name? then
        Accepted(Shape(OneConstructor(owned.value), Binds(payload[0].name, Payload)))
      else Accepted(Shape(OneConstructor(owned.value), BindsNothing))
    case _ => Refused(OutsideSlice)
  }

  // ----- what is accepted, said of the pattern and the type -----

  /** The k-th constructor is the one the type owns by that name. */
  ghost predicate Owns(adt: Adt, name: string, k: nat) {
    k < |adt| && adt[k].name == name && forall j :: 0 <= j < k ==> adt[j].name != name
  }

  ghost predicate Foreign(adt: Adt, name: string) {
    forall k :: 0 <= k < |adt| ==> adt[k].name != name
  }

  /** A payload that tests nothing. */
  predicate Plain(p: Pattern) {
    p.Wildcard? || p.Name?
  }

  /** A wildcard, a name that is no constructor's or a nullary one's, or a constructor over at most one plain payload. */
  ghost predicate InSlice(adt: Adt, p: Pattern) {
    match p
    case Wildcard => true
    case Name(name) => Foreign(adt, name) || exists k: nat :: Owns(adt, name, k) && adt[k].arity == 0
    case Constructor(name, payload) =>
      && (exists k: nat :: Owns(adt, name, k) && adt[k].arity == |payload|)
      && |payload| <= 1 && forall c :: c in payload ==> Plain(c)
    case _ => false
  }

  /** Why an alternative is outside it. */
  ghost predicate Outside(adt: Adt, p: Pattern, why: Refusal) {
    match why
    case PayloadRequired => p.Name? && exists k: nat :: Owns(adt, p.name, k) && adt[k].arity > 0
    case ForeignConstructor => p.Constructor? && Foreign(adt, p.name)
    case ArityMismatch =>
      p.Constructor? && exists k: nat :: Owns(adt, p.name, k) && (adt[k].arity != |p.payload| || |p.payload| > 1)
    case NestedPayload =>
      p.Constructor? && |p.payload| == 1 && !Plain(p.payload[0]) && exists k: nat :: Owns(adt, p.name, k) && adt[k].arity == 1
    case OutsideSlice => p.Or? || p.Parenthesized? || p.Unsupported?
  }

  /** The name an alternative binds: a name that is no constructor's, or the payload's. */
  ghost predicate BindsAs(adt: Adt, p: Pattern, b: Binding) {
    match b
    case Binds(name, CatchAll) => p == Name(name) && Foreign(adt, name)
    case Binds(name, Payload) => p.Constructor? && p.payload == [Name(name)]
    case BindsNothing =>
      p.Wildcard? || (p.Name? && !Foreign(adt, p.name)) || (p.Constructor? && forall c :: c in p.payload ==> c.Wildcard?)
  }

  /** What an alternative tests. */
  ghost predicate Tests(adt: Adt, p: Pattern, role: Role) {
    match role
    case AnyWildcard => p.Wildcard?
    case AnyBinding => p.Name? && Foreign(adt, p.name)
    case OneConstructor(k) => (p.Name? || p.Constructor?) && Owns(adt, p.name, k)
  }

  /** Classification accepts exactly the slice, refuses for the reason that holds, and says what is tested and bound. */
  lemma ClassifyIsExact(adt: Adt, p: Pattern)
    ensures Classify(adt, p).Accepted? <==> InSlice(adt, p)
    ensures forall why :: Classify(adt, p) == Refused(why) <==> Outside(adt, p, why)
    ensures Classify(adt, p).Accepted? ==>
      Tests(adt, p, Classify(adt, p).shape.role) && BindsAs(adt, p, Classify(adt, p).shape.binding)
  {
    if p.Name? || p.Constructor? {
      var owned := Ordinal(adt, p.name);
      if owned.Some? {
        assert Owns(adt, p.name, owned.value);
        forall k: nat | Owns(adt, p.name, k) ensures k == owned.value {}
      }
      if p.Constructor? && p.payload != [] { assert p.payload[0] in p.payload; }
    }
  }

  /** A role stands for a set of constructors. */
  predicate Admits(role: Role, v: nat) {
    role.OneConstructor? ==> role.ordinal == v
  }

  /** Classification keeps the set of matched values, and never names a constructor outside the type. */
  lemma ClassifyPreservesMatching(adt: Adt, p: Pattern, v: nat)
    requires Classify(adt, p).Accepted?
    ensures Admits(Classify(adt, p).shape.role, v) <==> Matches(adt, p, v)
    ensures Classify(adt, p).shape.role.OneConstructor? ==> Classify(adt, p).shape.role.ordinal < |adt|
  {
  }

  /** Every alternative of an arm binds the same name in the same role as the first. */
  predicate BindingsAgree(shapes: seq<Shape>) {
    forall k :: 0 < k < |shapes| ==> shapes[k].binding == shapes[0].binding
  }
}
