/** The coverage walk over one typed match: exhaustiveness and redundancy, decided arm by arm. */
module MatchAnalysis {
  import opened Coverage
  import opened Patterns
  import opened Wrappers

  const ADT_LIMIT: nat := 64
  const DISPLAY_CAP: nat := 8
  const OPERATION_LIMIT: nat := 4096

  datatype Verdict =
    | Exhaustive
    | Redundant(alternative: nat, covering: nat)
    | Missing(shown: seq<nat>, more: nat)
    | BudgetExceeded

  /** The type has between one and sixty-four constructors. */
  predicate Analyzable(t: TypedMatch) {
    WellTyped(t) && 0 < t.constructors <= ADT_LIMIT
  }

  // ----- the price of the walk -----

  function Price(t: TypedMatch, g: nat): nat
    requires g < |t.alternatives|
  {
    1 + if t.alternatives[g].role.OneConstructor? then 0 else t.constructors
  }

  /** One operation for every alternative, and one per constructor for every catch-all. */
  function Cost(t: TypedMatch, g: nat): nat
    requires g <= |t.alternatives|
  {
    if g == 0 then 0 else Cost(t, g - 1) + Price(t, g - 1)
  }

  lemma {:induction false} CostGrows(t: TypedMatch, g: nat, h: nat)
    requires g <= h <= |t.alternatives|
    ensures Cost(t, g) <= Cost(t, h)
  {
    if g < h { CostGrows(t, g, h - 1); }
  }

  // ----- the uncovered constructors -----

  /** The ordinals below a bound that the match can let fall through. */
  ghost function Uncovered(t: TypedMatch, bound: nat): seq<nat>
    requires WellTyped(t)
  {
    if bound == 0 then []
    else Uncovered(t, bound - 1) + if AlwaysSelects(t, bound - 1) then [] else [bound - 1]
  }

  /** The uncovered ordinals are listed in increasing order, and none is left out. */
  lemma {:induction false} UncoveredIsExact(t: TypedMatch, bound: nat)
    requires WellTyped(t)
    ensures forall k :: 0 <= k < |Uncovered(t, bound)| ==> Uncovered(t, bound)[k] < bound
    ensures forall k, l :: 0 <= k < l < |Uncovered(t, bound)| ==> Uncovered(t, bound)[k] < Uncovered(t, bound)[l]
    ensures forall v: nat :: v in Uncovered(t, bound) <==> v < bound && !AlwaysSelects(t, v)
  {
    hide AlwaysSelects;
    if bound > 0 { UncoveredIsExact(t, bound - 1); }
  }

  // ----- the state of the walk -----

  ghost predicate Known(t: TypedMatch, i: nat, g: nat, flags: seq<bool>, sites: seq<int>)
    requires WellTyped(t) && g <= |t.alternatives|
  {
    && |flags| == |sites| == ADT_LIMIT
    && forall v :: 0 <= v < t.constructors <= ADT_LIMIT ==> Knows(t, i, g, v, flags[v], sites[v])
  }

  /** Every alternative before g can be reached. */
  ghost predicate AllUseful(t: TypedMatch, g: nat)
    requires WellTyped(t) && g <= |t.alternatives|
  {
    forall h :: 0 <= h < g ==> Useful(t, h)
  }

  // ----- what a verdict promises -----

  /** The first ordinals of a list, up to the display cap. */
  function Shown(missing: seq<nat>): seq<nat> {
    if |missing| <= DISPLAY_CAP then missing else missing[..DISPLAY_CAP]
  }

  /** The verdict on a match whose analysis started with some operations spent. */
  ghost predicate Faithful(t: TypedMatch, spent: nat, verdict: Verdict)
    requires Analyzable(t)
  {
    match verdict
    case Exhaustive =>
      && AllUseful(t, |t.alternatives|)
      && (forall v :: 0 <= v < t.constructors ==> AlwaysSelects(t, v))
      && spent + Cost(t, |t.alternatives|) <= OPERATION_LIMIT
    case Redundant(g, c) =>
      g < |t.alternatives| && AllUseful(t, g) && !Useful(t, g) && Cited(t, g, c)
    case Missing(shown, more) =>
      && AllUseful(t, |t.alternatives|)
      && |Uncovered(t, t.constructors)| > 0
      && shown == Shown(Uncovered(t, t.constructors))
      && more == |Uncovered(t, t.constructors)| - |shown|
    case BudgetExceeded => spent + Cost(t, |t.alternatives|) + t.constructors > OPERATION_LIMIT
  }

  /** The step that pays for alternative g was one too many. */
  lemma BudgetSpent(t: TypedMatch, g: nat, spent: nat)
    requires Analyzable(t) && g < |t.alternatives| && spent + Cost(t, g) + 1 > OPERATION_LIMIT
    ensures Faithful(t, spent, BudgetExceeded)
  {
    CostGrows(t, g + 1, |t.alternatives|);
  }

  // ----- what each test decides -----

  /** A constructor alternative is redundant exactly when its constructor is claimed. */
  lemma ConstructorDecides(t: TypedMatch, g: nat, flag: bool, site: int)
    requires WellTyped(t) && g < |t.alternatives| && t.alternatives[g].role.OneConstructor?
    requires Knows(t, t.alternatives[g].arm, g, t.alternatives[g].role.ordinal, flag, site)
    ensures Useful(t, g) <==> !flag
    ensures flag ==> Cited(t, g, site)
  {
    hide Useful;
    var v := t.alternatives[g].role.ordinal;
    UsefulIffUnclaimed(t, g);
    KnowsDecides(t, t.alternatives[g].arm, g, v, flag, site);
    assert Admits(t.alternatives[g].role, v);
    if flag { BlockedFrom(t, g, v, site); }
  }

  lemma BlockedFrom(t: TypedMatch, g: nat, v: nat, site: int)
    requires WellTyped(t) && g < |t.alternatives| && t.alternatives[g].role == OneConstructor(v)
    requires Knows(t, t.alternatives[g].arm, g, v, true, site)
    ensures Cited(t, g, site)
  {
    assert v < t.constructors && Admits(t.alternatives[g].role, v) && Admits(t.alternatives[site].role, v);
  }

  /** The earliest of the first claims. */
  ghost predicate Earliest(t: TypedMatch, sites: seq<int>, first: int)
    requires t.constructors <= |sites|
  {
    && (exists v :: 0 <= v < t.constructors && sites[v] == first)
    && forall v :: 0 <= v < t.constructors ==> first <= sites[v]
  }

  /** A catch-all is redundant exactly when every constructor is claimed. */
  lemma CatchAllDecides(t: TypedMatch, g: nat, flags: seq<bool>, sites: seq<int>)
    requires Analyzable(t) && g < |t.alternatives| && !t.alternatives[g].role.OneConstructor?
    requires Known(t, t.alternatives[g].arm, g, flags, sites)
    ensures Useful(t, g) <==> exists v :: 0 <= v < t.constructors && !flags[v]
  {
    hide Useful;
    UsefulIffUnclaimed(t, g);
    assert forall v: nat :: Admits(t.alternatives[g].role, v);
    forall v | 0 <= v < t.constructors
      ensures flags[v] <==> Claimed(t, t.alternatives[g].arm, g, v)
    {
      KnowsDecides(t, t.alternatives[g].arm, g, v, flags[v], sites[v]);
    }
  }

  lemma CatchAllCites(t: TypedMatch, g: nat, flags: seq<bool>, sites: seq<int>, first: int)
    requires Analyzable(t) && g < |t.alternatives| && !t.alternatives[g].role.OneConstructor?
    requires Known(t, t.alternatives[g].arm, g, flags, sites) && Earliest(t, sites, first)
    requires forall v :: 0 <= v < t.constructors ==> flags[v]
    ensures first >= 0 && Cited(t, g, first)
  {
    var i := t.alternatives[g].arm;
    var v :| 0 <= v < t.constructors && sites[v] == first;
    assert Knows(t, i, g, v, flags[v], sites[v]);
    assert Admits(t.alternatives[g].role, v) && Admits(t.alternatives[first].role, v);
    forall h | 0 <= h < first ensures !Blocks(t, g, h) {
      forall w | 0 <= w < t.constructors ensures !(Claims(t, i, h) && Admits(t.alternatives[h].role, w)) {
        assert Knows(t, i, g, w, flags[w], sites[w]) && first <= sites[w];
      }
    }
  }

  /** A constructor alternative claims its constructor. */
  lemma ConstructorClaims(t: TypedMatch, g: nat, flags: seq<bool>, sites: seq<int>)
    requires Analyzable(t) && g < |t.alternatives| && t.alternatives[g].role.OneConstructor?
    requires Known(t, t.alternatives[g].arm, g, flags, sites) && !flags[t.alternatives[g].role.ordinal]
    ensures var o := t.alternatives[g].role.ordinal;
      Known(t, t.alternatives[g].arm, g + 1, flags[o := true], sites[o := g])
  {
    var i := t.alternatives[g].arm;
    var o := t.alternatives[g].role.ordinal;
    var flags', sites' := flags[o := true], sites[o := g];
    forall v | 0 <= v < t.constructors
      ensures Knows(t, i, g + 1, v, flags'[v], sites'[v])
    {
      assert Knows(t, i, g, v, flags[v], sites[v]);
      TestAlternative(t, i, g, v, flags[v], sites[v]);
    }
  }

  /** A catch-all claims whatever nothing before it claims. */
  lemma CatchAllClaims(t: TypedMatch, g: nat, flags: seq<bool>, sites: seq<int>, flags': seq<bool>, sites': seq<int>)
    requires Analyzable(t) && g < |t.alternatives| && !t.alternatives[g].role.OneConstructor?
    requires Known(t, t.alternatives[g].arm, g, flags, sites) && |flags'| == |sites'| == ADT_LIMIT
    requires forall v :: 0 <= v < t.constructors ==> flags'[v] && sites'[v] == if flags[v] then sites[v] else g
    ensures Known(t, t.alternatives[g].arm, g + 1, flags', sites')
  {
    var i := t.alternatives[g].arm;
    forall v | 0 <= v < t.constructors
      ensures Knows(t, i, g + 1, v, flags'[v], sites'[v])
    {
      assert Knows(t, i, g, v, flags[v], sites[v]);
      TestAlternative(t, i, g, v, flags[v], sites[v]);
    }
  }

  /** After the last arm, a constructor is covered exactly when its values always select something. */
  lemma CoveredDecides(t: TypedMatch, flags: seq<bool>, sites: seq<int>, v: nat)
    requires Analyzable(t) && Known(t, |t.arms|, |t.alternatives|, flags, sites) && v < t.constructors
    ensures flags[v] <==> AlwaysSelects(t, v)
  {
    hide AlwaysSelects;
    AlwaysSelectsIffClaimed(t, v);
    assert Knows(t, |t.arms|, |t.alternatives|, v, flags[v], sites[v]);
    KnowsDecides(t, |t.arms|, |t.alternatives|, v, flags[v], sites[v]);
  }

  class Walk {
    var operations: nat
    const covered: array<bool>
    const covering: array<int>
    const matched: array<bool>
    const matching: array<int>

    ghost predicate Valid()
      reads this
    {
      && covered.Length == covering.Length == matched.Length == matching.Length == ADT_LIMIT
      && covered != matched && covering != matching
      && operations <= OPERATION_LIMIT + 1
    }

    constructor (spent: nat)
      requires spent <= OPERATION_LIMIT
      ensures Valid() && operations == spent
      ensures fresh(covered) && fresh(covering) && fresh(matched) && fresh(matching)
      ensures forall v :: 0 <= v < ADT_LIMIT ==> !covered[v] && covering[v] == -1
    {
      operations := spent;
      covered := new bool[ADT_LIMIT](_ => false);
      covering := new int[ADT_LIMIT](_ => -1);
      matched := new bool[ADT_LIMIT](_ => false);
      matching := new int[ADT_LIMIT](_ => -1);
    }

    method Step() returns (ok: bool)
      requires Valid() && operations <= OPERATION_LIMIT
      modifies this`operations
      ensures Valid() && operations == old(operations) + 1 && ok == (operations <= OPERATION_LIMIT)
    {
      operations := operations + 1;
      ok := operations <= OPERATION_LIMIT;
    }

    /** Starts an arm from what the unguarded arms before it cover. */
    method EnterArm(t: TypedMatch, i: nat)
      requires Valid() && Analyzable(t) && i < |t.arms|
      requires Known(t, |t.arms|, t.arms[i].first, covered[..], covering[..])
      modifies matched, matching
      ensures Known(t, i, t.arms[i].first, matched[..], matching[..])
    {
      forall v | 0 <= v < ADT_LIMIT { matched[v] := covered[v]; }
      forall v | 0 <= v < ADT_LIMIT { matching[v] := covering[v]; }
      assert matched[..] == covered[..] && matching[..] == covering[..];
      forall v | 0 <= v < t.constructors
        ensures Knows(t, i, t.arms[i].first, v, matched[..][v], matching[..][v])
      {
        Coverage.EnterArm(t, i, v, matched[..][v], matching[..][v]);
      }
    }

    /** Commits an unguarded arm; a guarded one leaves what is covered alone. */
    method LeaveArm(t: TypedMatch, i: nat)
      requires Valid() && Analyzable(t) && i < |t.arms|
      requires Known(t, |t.arms|, t.arms[i].first, covered[..], covering[..])
      requires Begin(t, i + 1) == t.arms[i].first + t.arms[i].count <= |t.alternatives|
      requires Known(t, i, Begin(t, i + 1), matched[..], matching[..])
      modifies covered, covering
      ensures Known(t, |t.arms|, Begin(t, i + 1), covered[..], covering[..])
    {
      if !t.arms[i].guarded {
        forall v | 0 <= v < ADT_LIMIT { covered[v] := matched[v]; }
        forall v | 0 <= v < ADT_LIMIT { covering[v] := matching[v]; }
        assert matched[..] == covered[..] && matching[..] == covering[..];
      }
      forall v | 0 <= v < t.constructors
        ensures Knows(t, |t.arms|, Begin(t, i + 1), v, covered[..][v], covering[..][v])
      {
        if t.arms[i].guarded {
          LeaveGuarded(t, i, v, covered[..][v], covering[..][v]);
        } else {
          LeaveUnguarded(t, i, v, matched[..][v], matching[..][v]);
        }
      }
    }

    /** Whether every constructor of the type is in the set. */
    static method AllCovered(flags: array<bool>, count: nat) returns (all: bool)
      requires count <= flags.Length
      ensures all <==> forall v :: 0 <= v < count ==> flags[v]
    {
      var index := 0;
      while index < count
        invariant 0 <= index <= count
        invariant forall v :: 0 <= v < index ==> flags[v]
      {
        if !flags[index] { return false; }
        index := index + 1;
      }
      return true;
    }

    /** The least first claim over all constructors. */
    method FirstClaim(t: TypedMatch, i: nat, g: nat) returns (first: int)
      requires Valid() && Analyzable(t) && g <= |t.alternatives| && Known(t, i, g, matched[..], matching[..])
      requires forall v :: 0 <= v < t.constructors ==> matched[v]
      ensures Earliest(t, matching[..], first)
    {
      first := -1;
      var index := 0;
      while index < t.constructors
        invariant 0 <= index <= t.constructors
        invariant first == -1 <==> index == 0
        invariant index > 0 ==> exists v :: 0 <= v < index && matching[..][v] == first
        invariant forall v :: 0 <= v < index ==> first <= matching[..][v]
      {
        assert Knows(t, i, g, index, matched[..][index], matching[..][index]);
        if matching[index] >= 0 && (first < 0 || matching[index] < first) { first := matching[index]; }
        assert matching[..][index] == matching[index];
        index := index + 1;
      }
    }

    /** Tests an alternative that names one constructor; reports the alternative that already covers it. */
    method TestConstructor(t: TypedMatch, g: nat) returns (cited: int)
      requires Valid() && Analyzable(t) && g < |t.alternatives| && t.alternatives[g].role.OneConstructor?
      requires Known(t, t.alternatives[g].arm, g, matched[..], matching[..])
      modifies matched, matching
      ensures cited >= 0 ==> !Useful(t, g) && Cited(t, g, cited)
      ensures cited < 0 ==> Useful(t, g) && Known(t, t.alternatives[g].arm, g + 1, matched[..], matching[..])
    {
      var ordinal := t.alternatives[g].role.ordinal;
      assert Knows(t, t.alternatives[g].arm, g, ordinal, matched[..][ordinal], matching[..][ordinal]);
      ConstructorDecides(t, g, matched[ordinal], matching[ordinal]);
      if matched[ordinal] { return matching[ordinal]; }
      ConstructorClaims(t, g, matched[..], matching[..]);
      ghost var flags, sites := matched[..], matching[..];
      matched[ordinal] := true;
      matching[ordinal] := g;
      assert matched[..] == flags[ordinal := true] && matching[..] == sites[ordinal := g];
      cited := -1;
    }

    /** Claims every constructor not yet claimed, one operation each. */
    method ClaimAll(t: TypedMatch, g: nat) returns (ok: bool)
      requires Valid() && Analyzable(t) && g < |t.alternatives| && !t.alternatives[g].role.OneConstructor?
      requires Known(t, t.alternatives[g].arm, g, matched[..], matching[..]) && operations <= OPERATION_LIMIT
      modifies this`operations, matched, matching
      ensures Valid() && ok == (old(operations) + t.constructors <= OPERATION_LIMIT)
      ensures ok ==> operations == old(operations) + t.constructors
      ensures ok ==> Known(t, t.alternatives[g].arm, g + 1, matched[..], matching[..])
    {
      ghost var flags, sites := matched[..], matching[..];
      var index := 0;
      while index < t.constructors
        invariant 0 <= index <= t.constructors && Valid()
        invariant operations == old(operations) + index <= OPERATION_LIMIT
        invariant forall v :: 0 <= v < index ==> matched[v] && matching[v] == if flags[v] then sites[v] else g
        invariant forall v :: index <= v < ADT_LIMIT ==> matched[v] == flags[v] && matching[v] == sites[v]
      {
        ok := Step();
        if !ok { return; }
        if !matched[index] { matching[index] := g; }
        matched[index] := true;
        index := index + 1;
      }
      CatchAllClaims(t, g, flags, sites, matched[..], matching[..]);
      ok := true;
    }

    /** Tests an alternative that admits every constructor; reports the first alternative of a complete cover. */
    method TestCatchAll(t: TypedMatch, g: nat) returns (ok: bool, cited: int)
      requires Valid() && Analyzable(t) && g < |t.alternatives| && !t.alternatives[g].role.OneConstructor?
      requires Known(t, t.alternatives[g].arm, g, matched[..], matching[..]) && operations <= OPERATION_LIMIT
      modifies this`operations, matched, matching
      ensures Valid()
      ensures cited >= 0 ==> !Useful(t, g) && Cited(t, g, cited)
      ensures cited < 0 ==> Useful(t, g) && ok == (old(operations) + t.constructors <= OPERATION_LIMIT)
      ensures cited < 0 && ok ==>
        operations == old(operations) + t.constructors && Known(t, t.alternatives[g].arm, g + 1, matched[..], matching[..])
    {
      hide Useful, Known, Cited;
      CatchAllDecides(t, g, matched[..], matching[..]);
      var all := AllCovered(matched, t.constructors);
      if all {
        cited := FirstClaim(t, t.alternatives[g].arm, g);
        CatchAllCites(t, g, matched[..], matching[..], cited);
        return true, cited;
      }
      cited := -1;
      ok := ClaimAll(t, g);
    }

    /** Tests one alternative of the arm it belongs to. */
    method TestAlternative(t: TypedMatch, g: nat, ghost base: nat) returns (report: Option<Verdict>)
      requires Valid() && Analyzable(t) && g < |t.alternatives| && AllUseful(t, g)
      requires Known(t, t.alternatives[g].arm, g, matched[..], matching[..])
      requires operations == base + Cost(t, g) + 1 <= OPERATION_LIMIT
      modifies this`operations, matched, matching
      ensures Valid()
      ensures report.Some? ==> Faithful(t, base, report.value)
      ensures report.None? ==>
        && AllUseful(t, g + 1) && Known(t, t.alternatives[g].arm, g + 1, matched[..], matching[..])
        && operations == base + Cost(t, g + 1) <= OPERATION_LIMIT
    {
      hide Useful, Known, Cited;
      CostGrows(t, g + 1, |t.alternatives|);
      var ok, cited := true, -1;
      if t.alternatives[g].role.OneConstructor? {
        cited := TestConstructor(t, g);
      } else {
        ok, cited := TestCatchAll(t, g);
      }
      if cited >= 0 { return Some(Redundant(g, cited)); }
      if !ok { return Some(BudgetExceeded); }
      report := None;
    }

    /** Tests the alternatives of one arm in order and commits the arm. Nothing to report means the walk goes on. */
    method TestArm(t: TypedMatch, i: nat, ghost base: nat) returns (report: Option<Verdict>)
      requires Valid() && Analyzable(t) && i < |t.arms| && AllUseful(t, t.arms[i].first)
      requires Known(t, |t.arms|, t.arms[i].first, covered[..], covering[..])
      requires t.arms[i].first + t.arms[i].count == Begin(t, i + 1) <= |t.alternatives|
      requires operations == base + Cost(t, t.arms[i].first) <= OPERATION_LIMIT
      modifies this`operations, covered, covering, matched, matching
      ensures Valid()
      ensures report.Some? ==> Faithful(t, base, report.value)
      ensures report.None? ==>
        && AllUseful(t, Begin(t, i + 1)) && Known(t, |t.arms|, Begin(t, i + 1), covered[..], covering[..])
        && operations == base + Cost(t, Begin(t, i + 1)) <= OPERATION_LIMIT
    {
      hide AllUseful, Known, Cited, Cost, Uncovered;
      var ok := Step();
      if !ok { BudgetSpent(t, t.arms[i].first, base); return Some(BudgetExceeded); }
      EnterArm(t, i);
      var k := 0;
      while k < t.arms[i].count
        invariant 0 <= k <= t.arms[i].count && Valid()
        invariant Known(t, |t.arms|, t.arms[i].first, covered[..], covering[..])
        invariant Known(t, i, t.arms[i].first + k, matched[..], matching[..])
        invariant AllUseful(t, t.arms[i].first + k)
        invariant operations == base + Cost(t, t.arms[i].first + k) + (if k == 0 then 1 else 0) <= OPERATION_LIMIT
      {
        var g := t.arms[i].first + k;
        ArmOf(t, i, g);
        if k != 0 {
          ok := Step();
          if !ok { BudgetSpent(t, g, base); return Some(BudgetExceeded); }
        }
        report := TestAlternative(t, g, base);
        if report.Some? { return; }
        k := k + 1;
      }
      LeaveArm(t, i);
      report := None;
    }

    /** Lists what is uncovered, at most eight ordinals and a count of the rest, one operation per constructor. */
    method ListMissing(t: TypedMatch, ghost base: nat) returns (verdict: Verdict)
      requires Valid() && Analyzable(t) && AllUseful(t, |t.alternatives|)
      requires Known(t, |t.arms|, |t.alternatives|, covered[..], covering[..])
      requires exists v :: 0 <= v < t.constructors && !covered[v]
      requires operations == base + Cost(t, |t.alternatives|) <= OPERATION_LIMIT
      modifies this`operations
      ensures Valid() && Faithful(t, base, verdict)
    {
      hide Useful, Known, Cited, AlwaysSelects;
      var missingCount: nat := 0;
      var shown: seq<nat> := [];
      var index := 0;
      while index < t.constructors
        invariant 0 <= index <= t.constructors && Valid()
        invariant operations == base + Cost(t, |t.alternatives|) + index <= OPERATION_LIMIT
        invariant missingCount == |Uncovered(t, index)|
        invariant shown == Shown(Uncovered(t, index))
        invariant (exists v :: 0 <= v < index && !covered[v]) ==> missingCount > 0
      {
        var ok := Step();
        if !ok { return BudgetExceeded; }
        CoveredDecides(t, covered[..], covering[..], index);
        if !covered[index] {
          missingCount := missingCount + 1;
          if |shown| < DISPLAY_CAP { shown := shown + [index]; }
        }
        index := index + 1;
      }
      verdict := Missing(shown, missingCount - |shown|);
    }

    /**
     The whole walk. Within the operation budget it reports the first
     alternative no value can reach, or else the constructors that can fall
     through, or else accepts.
     */
    method Analyze(t: TypedMatch) returns (verdict: Verdict)
      requires Valid() && Analyzable(t) && operations <= OPERATION_LIMIT
      requires forall v :: 0 <= v < ADT_LIMIT ==> !covered[v] && covering[v] == -1
      modifies this`operations, covered, covering, matched, matching
      ensures Valid() && Faithful(t, old(operations), verdict)
    {
      hide Useful, Cited, AlwaysSelects;
      ghost var base := operations;
      BeginsAtZero(t);
      var i := 0;
      while i < |t.arms|
        invariant 0 <= i <= |t.arms| && Valid() && AllUseful(t, Begin(t, i))
        invariant Known(t, |t.arms|, Begin(t, i), covered[..], covering[..])
        invariant operations == base + Cost(t, Begin(t, i)) <= OPERATION_LIMIT
      {
        var report := TestArm(t, i, base);
        if report.Some? { return report.value; }
        i := i + 1;
      }
      forall v | 0 <= v < t.constructors ensures covered[v] <==> AlwaysSelects(t, v) {
        CoveredDecides(t, covered[..], covering[..], v);
      }
      var all := AllCovered(covered, t.constructors);
      if all { return Exhaustive; }
      verdict := ListMissing(t, base);
    }
  }
}
