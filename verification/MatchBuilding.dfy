/** From match arms over nested patterns to the typed alternatives the coverage walk reads. */
module MatchBuilding {
  import opened Coverage
  import opened MatchAnalysis
  import opened Patterns
  import opened Wrappers

  const ARM_LIMIT: nat := 512
  const ALTERNATIVE_LIMIT: nat := 1024

  datatype SourceArm = SourceArm(pattern: Pattern, guarded: bool)

  datatype Failure =
    | NoFailure
    | OverBudget
    | TooDeep
    | TooManyAlternatives
    | NoAlternative
    | Unclassified(why: Refusal)
    | BindingsDiffer
    | TableFull

  // ----- which arms build -----

  function Shapes(adt: Adt, ps: seq<Pattern>): (r: seq<Shape>)
    requires forall k :: 0 <= k < |ps| ==> Classify(adt, ps[k]).Accepted?
    ensures |r| == |ps|
    ensures forall k :: 0 <= k < |ps| ==> r[k] == Classify(adt, ps[k]).shape
  {
    seq(|ps|, k requires 0 <= k < |ps| => Classify(adt, ps[k]).shape)
  }

  predicate AllClassified(adt: Adt, ps: seq<Pattern>) {
    forall k :: 0 <= k < |ps| ==> Classify(adt, ps[k]).Accepted?
  }

  /** An arm the analysis can represent, limits on the whole run aside. */
  predicate Buildable(adt: Adt, p: Pattern) {
    && WithinDepth(p, PATTERN_DEPTH_LIMIT)
    && 1 <= |Flatten(p)| <= ARM_ALTERNATIVE_LIMIT
    && AllClassified(adt, Flatten(p))
    && BindingsAgree(Shapes(adt, Flatten(p)))
  }

  /** The flattened alternatives all bind the same name in the same role, or all bind nothing. */
  ghost predicate BindAlike(adt: Adt, ps: seq<Pattern>) {
    exists b :: AllBind(adt, ps, b)
  }

  ghost predicate AllBind(adt: Adt, ps: seq<Pattern>, b: Binding) {
    forall k :: 0 <= k < |ps| ==> BindsAs(adt, ps[k], b)
  }

  /** The k-th alternative is the first outside the slice, for that reason. */
  ghost predicate FirstOutside(adt: Adt, ps: seq<Pattern>, k: nat, why: Refusal) {
    k < |ps| && Outside(adt, ps[k], why) && forall j :: 0 <= j < k ==> InSlice(adt, ps[j])
  }

  /** The same, said of the pattern and the type alone. */
  ghost predicate Representable(adt: Adt, p: Pattern) {
    && WithinDepth(p, PATTERN_DEPTH_LIMIT)
    && 1 <= |Flatten(p)| <= ARM_ALTERNATIVE_LIMIT
    && (forall k :: 0 <= k < |Flatten(p)| ==> InSlice(adt, Flatten(p)[k]))
    && BindAlike(adt, Flatten(p))
  }

  ghost predicate AllRepresentable(adt: Adt, sources: seq<SourceArm>) {
    forall i :: 0 <= i < |sources| ==> Representable(adt, sources[i].pattern)
  }

  lemma BindingIsUnique(adt: Adt, p: Pattern, b: Binding, b': Binding)
    requires BindsAs(adt, p, b) && BindsAs(adt, p, b')
    ensures b == b'
  {
    if p.Constructor? && p.payload != [] { assert p.payload[0] in p.payload; }
  }

  lemma ClassifiedIsInSlice(adt: Adt, ps: seq<Pattern>)
    ensures AllClassified(adt, ps) <==> forall k :: 0 <= k < |ps| ==> InSlice(adt, ps[k])
  {
    hide Classify, InSlice;
    forall k | 0 <= k < |ps| ensures Classify(adt, ps[k]).Accepted? <==> InSlice(adt, ps[k]) { ClassifyIsExact(adt, ps[k]); }
  }

  lemma AgreeIsAlike(adt: Adt, ps: seq<Pattern>)
    requires AllClassified(adt, ps) && ps != []
    ensures BindingsAgree(Shapes(adt, ps)) <==> BindAlike(adt, ps)
  {
    hide Classify, BindsAs;
    forall k | 0 <= k < |ps| ensures BindsAs(adt, ps[k], Shapes(adt, ps)[k].binding) { ClassifyIsExact(adt, ps[k]); }
    if BindAlike(adt, ps) {
      var b :| AllBind(adt, ps, b);
      forall k | 0 <= k < |ps| ensures Shapes(adt, ps)[k].binding == b { assert BindsAs(adt, ps[k], b); BindingIsUnique(adt, ps[k], b, Shapes(adt, ps)[k].binding); }
    }
    if BindingsAgree(Shapes(adt, ps)) {
      var b := Shapes(adt, ps)[0].binding;
      assert AllBind(adt, ps, b);
    }
  }

  lemma BuildableIsRepresentable(adt: Adt, p: Pattern)
    ensures Buildable(adt, p) <==> Representable(adt, p)
  {
    hide Flatten, WithinDepth, AllClassified, BindingsAgree, BindAlike, InSlice;
    ClassifiedIsInSlice(adt, Flatten(p));
    if AllClassified(adt, Flatten(p)) && Flatten(p) != [] { AgreeIsAlike(adt, Flatten(p)); }
  }

  lemma {:induction false} AllBuildableIsRepresentable(adt: Adt, sources: seq<SourceArm>)
    ensures AllBuildable(adt, sources) <==> AllRepresentable(adt, sources)
  {
    hide Buildable, Representable;
    if sources != [] {
      BuildableIsRepresentable(adt, sources[0].pattern);
      AllBuildableIsRepresentable(adt, sources[1..]);
    }
  }

  lemma RolesTest(adt: Adt, ps: seq<Pattern>)
    requires AllClassified(adt, ps)
    ensures forall k :: 0 <= k < |ps| ==> Tests(adt, ps[k], Shapes(adt, ps)[k].role)
  {
    hide Classify, Tests;
    forall k | 0 <= k < |ps| ensures Tests(adt, ps[k], Shapes(adt, ps)[k].role) { ClassifyIsExact(adt, ps[k]); }
  }

  /** Arm i of the table stands for the i-th source arm: same guard, its alternatives in order. */
  ghost predicate Represents(adt: Adt, source: SourceArm, t: TypedMatch, i: nat)
    requires i < |t.arms|
  {
    && Buildable(adt, source.pattern)
    && t.arms[i].guarded == source.guarded
    && t.arms[i].count == |Flatten(source.pattern)|
    && t.arms[i].first + t.arms[i].count <= |t.alternatives|
    && forall k :: 0 <= k < t.arms[i].count ==>
         t.alternatives[t.arms[i].first + k] == TypedAlternative(i, Classify(adt, Flatten(source.pattern)[k]).shape.role)
  }

  ghost predicate Built(adt: Adt, sources: seq<SourceArm>, t: TypedMatch) {
    && t.constructors == |adt| && |t.arms| == |sources| && WellTyped(t)
    && forall i :: 0 <= i < |sources| ==> Represents(adt, sources[i], t, i)
  }

  // ----- what a source match means -----

  /** Arms are tried in order; the first that matches the value and whose guard, if any, holds is taken. */
  ghost function Taken(adt: Adt, sources: seq<SourceArm>, v: nat, holds: set<nat>, i: nat): Option<nat>
    requires i <= |sources|
    decreases |sources| - i
  {
    if i == |sources| then None
    else if Matches(adt, sources[i].pattern, v) && (!sources[i].guarded || i in holds) then Some(i)
    else Taken(adt, sources, v, holds, i + 1)
  }

  /** A built arm admits a value through some alternative exactly when its pattern matches it. */
  lemma ArmAdmits(adt: Adt, source: SourceArm, t: TypedMatch, i: nat, v: nat)
    requires i < |t.arms| && Represents(adt, source, t, i)
    ensures FirstAdmitting(t, v, t.arms[i].first, t.arms[i].first + t.arms[i].count).Some? <==> Matches(adt, source.pattern, v)
  {
    hide Matches, Classify, FirstAdmitting, Flatten, WithinDepth;
    var flat := Flatten(source.pattern);
    FlattenPreservesMatching(adt, source.pattern, v);
    forall k | 0 <= k < |flat|
      ensures Admits(t.alternatives[t.arms[i].first + k].role, v) <==> Matches(adt, flat[k], v)
    {
      ClassifyPreservesMatching(adt, flat[k], v);
    }
    var hit := FirstAdmitting(t, v, t.arms[i].first, t.arms[i].first + t.arms[i].count);
    if hit.Some? { assert Matches(adt, flat[hit.value - t.arms[i].first], v); }
  }

  /** One arm, on both sides. */
  lemma ArmAgrees(adt: Adt, sources: seq<SourceArm>, t: TypedMatch, v: nat, holds: set<nat>, i: nat)
    requires Built(adt, sources, t) && i < |sources|
    ensures
      if Matches(adt, sources[i].pattern, v) && (!sources[i].guarded || i in holds) then
        && Taken(adt, sources, v, holds, i) == Some(i)
        && Select(t, v, holds, i).Some? && Select(t, v, holds, i).value < |t.alternatives|
        && t.alternatives[Select(t, v, holds, i).value].arm == i
      else
        Taken(adt, sources, v, holds, i) == Taken(adt, sources, v, holds, i + 1)
        && Select(t, v, holds, i) == Select(t, v, holds, i + 1)
  {
    hide Matches, FirstAdmitting;
    assert Represents(adt, sources[i], t, i);
    ArmAdmits(adt, sources[i], t, i, v);
    var hit := FirstAdmitting(t, v, t.arms[i].first, t.arms[i].first + t.arms[i].count);
    if hit.Some? { ArmOf(t, i, hit.value); }
  }

  /** Building keeps the meaning of a match: the selected alternative lies in the arm the source takes. */
  lemma {:induction false} BuildPreservesSelection(
      adt: Adt, sources: seq<SourceArm>, t: TypedMatch, v: nat, holds: set<nat>, i: nat)
    requires Built(adt, sources, t) && i <= |sources|
    ensures var s := Select(t, v, holds, i); var a := Taken(adt, sources, v, holds, i);
      && (s.Some? <==> a.Some?)
      && (s.Some? ==> s.value < |t.alternatives| && t.alternatives[s.value].arm == a.value)
    decreases |sources| - i
  {
    if i < |sources| {
      hide Matches, Select, Taken, Represents;
      ArmAgrees(adt, sources, t, v, holds, i);
      BuildPreservesSelection(adt, sources, t, v, holds, i + 1);
    }
  }

  // ----- building -----

  function Filed(arm: nat, shapes: seq<Shape>): (r: seq<TypedAlternative>)
    ensures |r| == |shapes|
  {
    seq(|shapes|, k requires 0 <= k < |shapes| => TypedAlternative(arm, shapes[k].role))
  }

  predicate AllBuildable(adt: Adt, sources: seq<SourceArm>) {
    sources == [] || (Buildable(adt, sources[0].pattern) && AllBuildable(adt, sources[1..]))
  }

  function Total(sources: seq<SourceArm>): nat {
    if sources == [] then 0 else |Flatten(sources[0].pattern)| + Total(sources[1..])
  }

  lemma NothingBuilt(adt: Adt, sources: seq<SourceArm>)
    ensures Built(adt, sources[..0], TypedMatch(|adt|, [], []))
  {
  }

  /** The table after one more arm. */
  function Extended(adt: Adt, source: SourceArm, t: TypedMatch): TypedMatch
    requires AllClassified(adt, Flatten(source.pattern))
  {
    t.(arms := t.arms + [TypedArm(source.guarded, |t.alternatives|, |Flatten(source.pattern)|)],
       alternatives := t.alternatives + Filed(|t.arms|, Shapes(adt, Flatten(source.pattern))))
  }

  /** The table has grown by one entry for each pattern, testing what it tests. */
  ghost predicate FiledAs(adt: Adt, ps: seq<Pattern>, arm: nat, before: seq<TypedAlternative>, after: seq<TypedAlternative>) {
    && |after| == |before| + |ps| && before <= after
    && forall k :: 0 <= k < |ps| ==> after[|before| + k].arm == arm && Tests(adt, ps[k], after[|before| + k].role)
  }

  lemma FiledTests(adt: Adt, ps: seq<Pattern>, arm: nat, before: seq<TypedAlternative>)
    requires AllClassified(adt, ps)
    ensures FiledAs(adt, ps, arm, before, before + Filed(arm, Shapes(adt, ps)))
  {
    hide Tests, Classify;
    RolesTest(adt, ps);
  }

  /** Adding a representable arm keeps the table built. */
  lemma OneMoreBuilt(adt: Adt, sources: seq<SourceArm>, i: nat, t: TypedMatch)
    requires i < |sources| && Built(adt, sources[..i], t) && Buildable(adt, sources[i].pattern)
    ensures Built(adt, sources[..i + 1], Extended(adt, sources[i], t))
  {
    var t' := Extended(adt, sources[i], t);
    ExtendedWellTyped(adt, sources[i], t);
    forall k | 0 <= k <= i ensures Represents(adt, sources[k], t', k) {
      if k < i {
        assert Represents(adt, sources[..i][k], t, k);
        EarlierArmKept(adt, sources[i], t, sources[k], k);
      } else {
        NewArmRepresented(adt, sources[i], t);
      }
    }
  }

  lemma ExtendedWellTyped(adt: Adt, source: SourceArm, t: TypedMatch)
    requires t.constructors == |adt| && WellTyped(t) && Buildable(adt, source.pattern)
    ensures WellTyped(Extended(adt, source, t))
  {
    hide Flatten, Classify, WithinDepth, BindingsAgree;
    var flat := Flatten(source.pattern);
    var t' := Extended(adt, source, t);
    forall g | 0 <= g < |t'.alternatives|
      ensures t'.alternatives[g].arm < |t'.arms|
      ensures t'.arms[t'.alternatives[g].arm].first <= g < t'.arms[t'.alternatives[g].arm].first + t'.arms[t'.alternatives[g].arm].count
      ensures t'.alternatives[g].role.OneConstructor? ==> t'.alternatives[g].role.ordinal < t.constructors
    {
      if g < |t.alternatives| {
        assert t'.alternatives[g] == t.alternatives[g];
      } else {
        ClassifyPreservesMatching(adt, flat[g - |t.alternatives|], 0);
      }
    }
  }

  lemma EarlierArmKept(adt: Adt, source: SourceArm, t: TypedMatch, earlier: SourceArm, k: nat)
    requires AllClassified(adt, Flatten(source.pattern)) && k < |t.arms| && Represents(adt, earlier, t, k)
    ensures Represents(adt, earlier, Extended(adt, source, t), k)
  {
    hide Flatten, Classify, WithinDepth, BindingsAgree;
  }

  lemma NewArmRepresented(adt: Adt, source: SourceArm, t: TypedMatch)
    requires Buildable(adt, source.pattern)
    ensures Represents(adt, source, Extended(adt, source, t), |t.arms|)
  {
    hide Flatten, Classify, WithinDepth, BindingsAgree;
  }

  class Builder {
    var operations: nat
    var arms: seq<TypedArm>
    var alternatives: seq<TypedAlternative>
    var collected: seq<Pattern>
    var failure: Failure
    const earlierArms: nat
    const earlierAlternatives: nat

    constructor (spent: nat, earlierArms: nat, earlierAlternatives: nat)
      ensures operations == spent && arms == [] && alternatives == [] && collected == [] && failure == NoFailure
      ensures this.earlierArms == earlierArms && this.earlierAlternatives == earlierAlternatives
    {
      operations, arms, alternatives, collected, failure := spent, [], [], [], NoFailure;
      this.earlierArms, this.earlierAlternatives := earlierArms, earlierAlternatives;
    }

    method Step() returns (ok: bool)
      modifies this`operations, this`failure
      ensures operations == old(operations) + 1 && ok == (operations <= OPERATION_LIMIT)
      ensures failure == if ok then old(failure) else OverBudget
    {
      operations := operations + 1;
      ok := operations <= OPERATION_LIMIT;
      if !ok { failure := OverBudget; }
    }

    /** Skips grouping parentheses, at most depth of them. */
    method Unwrap(p: Pattern, depth: nat) returns (r: Option<Pattern>)
      modifies this`failure
      ensures r == Unwrapped(p, depth)
      ensures failure == if r.Some? then old(failure) else TooDeep
    {
      var node, left := p, depth;
      while node.Parenthesized?
        invariant Unwrapped(node, left) == Unwrapped(p, depth)
        invariant failure == old(failure)
        decreases node
      {
        if left == 0 { failure := TooDeep; return None; }
        left := left - 1;
        node := node.inner;
      }
      r := Some(node);
    }

    /** The operations that collecting flattened alternatives costs: the first of an arm is already paid for. */
    static function Fee(have: nat, more: nat): nat {
      if have == 0 && more > 0 then more - 1 else more
    }

    /**
     Appends the alternatives of a pattern, left to right. It succeeds exactly
     when the nesting, the arm's alternatives and the operations stay in bounds.
     */
    method Collect(p: Pattern, depth: nat) returns (ok: bool)
      requires |collected| <= ARM_ALTERNATIVE_LIMIT && operations <= OPERATION_LIMIT
      modifies this`operations, this`failure, this`collected
      ensures ok <==>
        && WithinDepth(p, depth)
        && |old(collected)| + |Flatten(p)| <= ARM_ALTERNATIVE_LIMIT
        && old(operations) + Fee(|old(collected)|, |Flatten(p)|) <= OPERATION_LIMIT
      ensures ok ==> collected == old(collected) + Flatten(p)
      ensures ok ==> operations == old(operations) + Fee(|old(collected)|, |Flatten(p)|)
      ensures ok ==> failure == old(failure)
      ensures !ok ==> failure in {TooDeep, TooManyAlternatives, OverBudget}
      decreases p, 0
    {
      var node := Unwrap(p, depth);
      if node.None? { return false; }
      if node.value.Or? {
        if depth == 0 { failure := TooDeep; return false; }
        ok := CollectAll(node.value.choices, depth - 1);
        return;
      }
      if |collected| >= ARM_ALTERNATIVE_LIMIT { failure := TooManyAlternatives; return false; }
      if |collected| != 0 {
        ok := Step();
        if !ok { return; }
      }
      collected := collected + [node.value];
      ok := true;
    }

    method CollectAll(ps: seq<Pattern>, depth: nat) returns (ok: bool)
      requires |collected| <= ARM_ALTERNATIVE_LIMIT && operations <= OPERATION_LIMIT
      modifies this`operations, this`failure, this`collected
      ensures ok <==>
        && AllWithinDepth(ps, depth)
        && |old(collected)| + |FlattenAll(ps)| <= ARM_ALTERNATIVE_LIMIT
        && old(operations) + Fee(|old(collected)|, |FlattenAll(ps)|) <= OPERATION_LIMIT
      ensures ok ==> collected == old(collected) + FlattenAll(ps)
      ensures ok ==> operations == old(operations) + Fee(|old(collected)|, |FlattenAll(ps)|)
      ensures ok ==> failure == old(failure)
      ensures !ok ==> failure in {TooDeep, TooManyAlternatives, OverBudget}
      decreases ps, 1
    {
      var index := 0;
      while index < |ps|
        invariant 0 <= index <= |ps|
        invariant |collected| <= ARM_ALTERNATIVE_LIMIT && operations <= OPERATION_LIMIT && failure == old(failure)
        invariant collected + FlattenAll(ps[index..]) == old(collected) + FlattenAll(ps)
        invariant operations + Fee(|collected|, |FlattenAll(ps[index..])|) == old(operations) + Fee(|old(collected)|, |FlattenAll(ps)|)
        invariant AllWithinDepth(ps[index..], depth) <==> AllWithinDepth(ps, depth)
      {
        assert ps[index..][0] == ps[index] && ps[index..][1..] == ps[index + 1..];
        ok := Collect(ps[index], depth);
        if !ok { return; }
        index := index + 1;
      }
      ok := true;
    }

    /** Classifies every collected alternative. */
    method ClassifyAll(adt: Adt) returns (ok: bool, shapes: seq<Shape>)
      modifies this`failure
      ensures ok <==> forall k :: 0 <= k < |collected| ==> InSlice(adt, collected[k])
      ensures ok <==> AllClassified(adt, collected)
      ensures ok ==> failure == old(failure) && shapes == Shapes(adt, collected)
      ensures !ok ==> failure.Unclassified? && exists k: nat :: FirstOutside(adt, collected, k, failure.why)
    {
      hide Classify, InSlice, Outside;
      ClassifiedIsInSlice(adt, collected);
      shapes := [];
      var index := 0;
      while index < |collected|
        invariant 0 <= index <= |collected| && |shapes| == index && failure == old(failure)
        invariant forall k :: 0 <= k < index ==> Classify(adt, collected[k]) == Accepted(shapes[k])
      {
        var classified := Classify(adt, collected[index]);
        ClassifyIsExact(adt, collected[index]);
        if classified.Refused? {
          forall j | 0 <= j < index ensures InSlice(adt, collected[j]) { ClassifyIsExact(adt, collected[j]); }
          failure := Unclassified(classified.why);
          assert !InSlice(adt, collected[index]) && FirstOutside(adt, collected, index, failure.why);
          return false, [];
        }
        shapes := shapes + [classified.shape];
        index := index + 1;
      }
      ok := true;
    }

    /** Compares the binding of every alternative with the first one's. */
    method CheckBindings(shapes: seq<Shape>) returns (ok: bool)
      modifies this`failure
      ensures ok <==> BindingsAgree(shapes)
      ensures failure == if ok then old(failure) else BindingsDiffer
    {
      var index := 1;
      while index < |shapes|
        invariant 1 <= index && failure == old(failure)
        invariant forall k :: 0 < k < index && k < |shapes| ==> shapes[k].binding == shapes[0].binding
      {
        if shapes[index].binding != shapes[0].binding { failure := BindingsDiffer; return false; }
        index := index + 1;
      }
      ok := true;
    }

    /** Files the alternatives of one arm. */
    method File(arm: nat, shapes: seq<Shape>) returns (ok: bool)
      requires earlierAlternatives + |alternatives| <= ALTERNATIVE_LIMIT
      modifies this`failure, this`alternatives
      ensures ok <==> earlierAlternatives + |old(alternatives)| + |shapes| <= ALTERNATIVE_LIMIT
      ensures ok ==> failure == old(failure) && alternatives == old(alternatives) + Filed(arm, shapes)
      ensures !ok ==> failure == TableFull
    {
      var index := 0;
      while index < |shapes|
        invariant 0 <= index <= |shapes| && failure == old(failure)
        invariant alternatives == old(alternatives) + Filed(arm, shapes[..index])
        invariant earlierAlternatives + |alternatives| <= ALTERNATIVE_LIMIT
      {
        if earlierAlternatives + |alternatives| >= ALTERNATIVE_LIMIT { failure := TableFull; return false; }
        assert Filed(arm, shapes[..index + 1]) == Filed(arm, shapes[..index]) + [TypedAlternative(arm, shapes[index].role)];
        alternatives := alternatives + [TypedAlternative(arm, shapes[index].role)];
        index := index + 1;
      }
      assert shapes[..|shapes|] == shapes;
      ok := true;
    }

    /** Builds one arm. It succeeds exactly when the arm is representable and every budget holds. */
    method BuildArm(adt: Adt, source: SourceArm) returns (ok: bool)
      requires operations <= OPERATION_LIMIT && earlierAlternatives + |alternatives| <= ALTERNATIVE_LIMIT
      modifies this
      ensures ok <==>
        && Representable(adt, source.pattern)
        && old(operations) + |Flatten(source.pattern)| <= OPERATION_LIMIT
        && earlierArms + |old(arms)| < ARM_LIMIT
        && earlierAlternatives + |old(alternatives)| + |Flatten(source.pattern)| <= ALTERNATIVE_LIMIT
      ensures ok ==> failure == old(failure) && operations == old(operations) + |Flatten(source.pattern)|
      ensures ok ==> Buildable(adt, source.pattern)
      ensures ok ==>
        && arms == old(arms) + [TypedArm(source.guarded, |old(alternatives)|, |Flatten(source.pattern)|)]
        && alternatives == old(alternatives) + Filed(|old(arms)|, Shapes(adt, Flatten(source.pattern)))
      ensures ok ==> FiledAs(adt, Flatten(source.pattern), |old(arms)|, old(alternatives), alternatives)
      ensures !ok ==> failure != NoFailure
    {
      hide Flatten, WithinDepth, BindingsAgree, Classify, AllClassified, Shapes, Representable, Tests, Filed, FiledAs, InSlice, FirstOutside;
      BuildableIsRepresentable(adt, source.pattern);
      ok := Step();
      if !ok { return; }
      if earlierArms + |arms| >= ARM_LIMIT { failure := TableFull; return false; }
      var first := |alternatives|;
      collected := [];
      ok := Collect(source.pattern, PATTERN_DEPTH_LIMIT);
      if !ok { return; }
      assert collected == Flatten(source.pattern);
      if |collected| == 0 { failure := NoAlternative; return false; }
      var shapes;
      ok, shapes := ClassifyAll(adt);
      if !ok { return; }
      ok := CheckBindings(shapes);
      if !ok { return; }
      ok := File(|arms|, shapes);
      if !ok { return; }
      FiledTests(adt, Flatten(source.pattern), |arms|, old(alternatives));
      arms := arms + [TypedArm(source.guarded, first, |shapes|)];
    }

    /** Builds the arms of a match in order. */
    method BuildArms(adt: Adt, sources: seq<SourceArm>) returns (ok: bool)
      requires arms == [] && alternatives == []
      requires operations <= OPERATION_LIMIT && earlierArms <= ARM_LIMIT && earlierAlternatives <= ALTERNATIVE_LIMIT
      modifies this
      ensures ok <==>
        && AllRepresentable(adt, sources)
        && old(operations) + Total(sources) <= OPERATION_LIMIT
        && earlierArms + |sources| <= ARM_LIMIT
        && earlierAlternatives + Total(sources) <= ALTERNATIVE_LIMIT
      ensures ok ==> failure == old(failure) && operations == old(operations) + Total(sources)
      ensures ok ==> Built(adt, sources, TypedMatch(|adt|, arms, alternatives))
      ensures !ok ==> failure != NoFailure
    {
      hide Buildable, Built, Representable, AllRepresentable, FiledAs, Filed, Shapes;
      NothingBuilt(adt, sources);
      AllBuildableIsRepresentable(adt, sources);
      var index := 0;
      while index < |sources|
        invariant 0 <= index <= |sources| && failure == old(failure)
        invariant |arms| == index && earlierArms + index <= ARM_LIMIT
        invariant Built(adt, sources[..index], TypedMatch(|adt|, arms, alternatives))
        invariant AllBuildable(adt, sources[index..]) <==> AllBuildable(adt, sources)
        invariant operations + Total(sources[index..]) == old(operations) + Total(sources)
        invariant |alternatives| + Total(sources[index..]) == Total(sources)
        invariant operations <= OPERATION_LIMIT && earlierAlternatives + |alternatives| <= ALTERNATIVE_LIMIT
      {
        assert sources[index..][0] == sources[index] && sources[index..][1..] == sources[index + 1..];
        ghost var before := TypedMatch(|adt|, arms, alternatives);
        BuildableIsRepresentable(adt, sources[index].pattern);
        ok := BuildArm(adt, sources[index]);
        if !ok { return; }
        OneMoreBuilt(adt, sources, index, before);
        index := index + 1;
      }
      assert sources[..index] == sources;
      ok := true;
    }
  }

  // ----- what the verdict says about the source match -----

  /** The value can fall through: under some outcome of the guards no arm takes it. */
  ghost predicate FallsThrough(adt: Adt, sources: seq<SourceArm>, v: nat) {
    exists holds: set<nat> :: Taken(adt, sources, v, holds, 0).None?
  }

  lemma FallsThroughIffUnselected(adt: Adt, sources: seq<SourceArm>, t: TypedMatch, v: nat)
    requires Built(adt, sources, t)
    ensures FallsThrough(adt, sources, v) <==> !AlwaysSelects(t, v)
  {
    hide Taken, Select;
    forall holds: set<nat>
      ensures Select(t, v, holds, 0).Some? <==> Taken(adt, sources, v, holds, 0).Some?
    {
      BuildPreservesSelection(adt, sources, t, v, holds, 0);
    }
  }

  /**
   Within the operation budget the analysis decides a match over nested
   patterns. It accepts exactly when every constructor is taken under every
   outcome of the guards and every alternative can be reached; it reports
   redundancy exactly when some alternative cannot be reached; otherwise it
   reports the constructors that can fall through.
   */
  lemma AnalysisDecides(adt: Adt, sources: seq<SourceArm>, t: TypedMatch, spent: nat, verdict: Verdict)
    requires Built(adt, sources, t) && Analyzable(t) && Faithful(t, spent, verdict)
    requires spent + Cost(t, |t.alternatives|) + t.constructors <= OPERATION_LIMIT
    ensures !verdict.BudgetExceeded?
    ensures verdict.Redundant? <==> !AllUseful(t, |t.alternatives|)
    ensures verdict.Exhaustive? <==>
      AllUseful(t, |t.alternatives|) && forall v :: 0 <= v < |adt| ==> !FallsThrough(adt, sources, v)
    ensures verdict.Missing? ==> exists missing ::
      && IsFallThroughList(adt, sources, missing)
      && verdict.shown == Shown(missing) && verdict.more == |missing| - |verdict.shown|
  {
    hide AlwaysSelects, Useful, Cited, FallsThrough, Uncovered;
    forall v | 0 <= v < |adt| ensures FallsThrough(adt, sources, v) <==> !AlwaysSelects(t, v) {
      FallsThroughIffUnselected(adt, sources, t, v);
    }
    UncoveredIsExact(t, |adt|);
    if verdict.Missing? {
      assert Uncovered(t, |adt|)[0] in Uncovered(t, |adt|);
      assert IsFallThroughList(adt, sources, Uncovered(t, |adt|));
    }
  }

  /** The ordinals that can fall through, in increasing order. */
  ghost predicate IsFallThroughList(adt: Adt, sources: seq<SourceArm>, missing: seq<nat>) {
    && (forall k, l :: 0 <= k < l < |missing| ==> missing[k] < missing[l])
    && forall v: nat :: v in missing <==> v < |adt| && FallsThrough(adt, sources, v)
  }

  /** A reachable alternative has a value and guard outcomes for which the source takes its arm. */
  lemma UsefulArmIsTaken(adt: Adt, sources: seq<SourceArm>, t: TypedMatch, g: nat)
    requires Built(adt, sources, t) && g < |t.alternatives| && Useful(t, g)
    ensures exists v: nat, holds: set<nat> ::
      v < |adt| && Taken(adt, sources, v, holds, 0) == Some(t.alternatives[g].arm)
  {
    var v: nat, holds: set<nat> :| v < t.constructors && Select(t, v, holds, 0) == Some(g);
    BuildPreservesSelection(adt, sources, t, v, holds, 0);
  }
}
