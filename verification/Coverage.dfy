/** What a match means, and when an alternative of it can ever be reached. */
module Coverage {
  import opened Patterns
  import opened Wrappers

  datatype TypedArm = TypedArm(guarded: bool, first: nat, count: nat)

  datatype TypedAlternative = TypedAlternative(arm: nat, role: Role)

  datatype TypedMatch = TypedMatch(constructors: nat, arms: seq<TypedArm>, alternatives: seq<TypedAlternative>)

  /** Arms own consecutive, non-empty runs of alternatives. */
  predicate WellTyped(t: TypedMatch) {
    && (|t.arms| == 0 ==> |t.alternatives| == 0)
    && (|t.arms| > 0 ==> t.arms[0].first == 0)
    && (forall i :: 0 <= i < |t.arms| ==> t.arms[i].count > 0)
    && (forall i :: 0 < i < |t.arms| ==> t.arms[i].first == t.arms[i - 1].first + t.arms[i - 1].count)
    && (forall i :: 0 <= i < |t.arms| ==> t.arms[i].first + t.arms[i].count <= |t.alternatives|)
    && (|t.arms| > 0 ==> t.arms[|t.arms| - 1].first + t.arms[|t.arms| - 1].count == |t.alternatives|)
    && (forall g :: 0 <= g < |t.alternatives| ==>
          && t.alternatives[g].arm < |t.arms|
          && t.arms[t.alternatives[g].arm].first <= g < t.arms[t.alternatives[g].arm].first + t.arms[t.alternatives[g].arm].count
          && (t.alternatives[g].role.OneConstructor? ==> t.alternatives[g].role.ordinal < t.constructors))
  }

  /** Where the alternatives of an arm begin; one past the last arm, the end of the table. */
  function Begin(t: TypedMatch, i: nat): nat
    requires i <= |t.arms|
  {
    if i < |t.arms| then t.arms[i].first else |t.alternatives|
  }

  lemma BeginsAtZero(t: TypedMatch)
    requires WellTyped(t)
    ensures Begin(t, 0) == 0
  {
  }

  // ----- running a match -----

  /** The first alternative of a run that admits the value. */
  function FirstAdmitting(t: TypedMatch, v: nat, from: nat, end: nat): (r: Option<nat>)
    requires from <= end <= |t.alternatives|
    ensures r.Some? ==> from <= r.value < end && Admits(t.alternatives[r.value].role, v)
    ensures forall h :: from <= h < (if r.Some? then r.value else end) ==> !Admits(t.alternatives[h].role, v)
    decreases end - from
  {
    if from == end then None
    else if Admits(t.alternatives[from].role, v) then Some(from)
    else FirstAdmitting(t, v, from + 1, end)
  }

  /**
   Arms are tried in order. An arm's alternatives are tested left to right; the
   first that admits the value is selected if the arm has no guard or its guard
   holds, and otherwise the match moves to the next arm.
   */
  function Select(t: TypedMatch, v: nat, holds: set<nat>, i: nat): Option<nat>
    requires WellTyped(t) && i <= |t.arms|
    decreases |t.arms| - i
  {
    if i == |t.arms| then None
    else
      var hit := FirstAdmitting(t, v, t.arms[i].first, t.arms[i].first + t.arms[i].count);
      if hit.Some? && (!t.arms[i].guarded || i in holds) then hit
      else Select(t, v, holds, i + 1)
  }

  /** Some value, under some outcome of the guards, selects the alternative. */
  ghost predicate Useful(t: TypedMatch, g: nat)
    requires WellTyped(t)
  {
    exists v: nat, holds: set<nat> :: v < t.constructors && Select(t, v, holds, 0) == Some(g)
  }

  /** The value selects something whatever the guards do. */
  ghost predicate AlwaysSelects(t: TypedMatch, v: nat)
    requires WellTyped(t)
  {
    forall holds: set<nat> :: Select(t, v, holds, 0).Some?
  }

  // ----- the flat view -----

  predicate Open(t: TypedMatch, h: nat, holds: set<nat>)
    requires WellTyped(t) && h < |t.alternatives|
  {
    !t.arms[t.alternatives[h].arm].guarded || t.alternatives[h].arm in holds
  }

  predicate Takes(t: TypedMatch, v: nat, holds: set<nat>, h: nat)
    requires WellTyped(t) && h < |t.alternatives|
  {
    Admits(t.alternatives[h].role, v) && Open(t, h, holds)
  }

  lemma ArmOf(t: TypedMatch, i: nat, g: nat)
    requires WellTyped(t) && i < |t.arms| && t.arms[i].first <= g < t.arms[i].first + t.arms[i].count
    ensures t.alternatives[g].arm == i
  {
    var a := t.alternatives[g].arm;
    if a < i { RunsAscend(t, a, i); } else if i < a { RunsAscend(t, i, a); }
  }

  lemma {:induction false} RunsAscend(t: TypedMatch, a: nat, b: nat)
    requires WellTyped(t) && a < b < |t.arms|
    ensures t.arms[a].first + t.arms[a].count <= t.arms[b].first
  {
    if a < b - 1 { RunsAscend(t, a, b - 1); }
  }

  /** Selection is the first alternative that takes the value. */
  lemma {:induction false} SelectIsFirstTaker(t: TypedMatch, v: nat, holds: set<nat>, i: nat)
    requires WellTyped(t) && i <= |t.arms|
    ensures var r := Select(t, v, holds, i);
      && (r.Some? ==> Begin(t, i) <= r.value < |t.alternatives| && Takes(t, v, holds, r.value))
      && forall h :: Begin(t, i) <= h < (if r.Some? then r.value else |t.alternatives|) ==> !Takes(t, v, holds, h)
    decreases |t.arms| - i
  {
    if i < |t.arms| {
      hide Select;
      SelectIsFirstTaker(t, v, holds, i + 1);
      SelectStep(t, v, holds, i);
    }
  }

  lemma SelectStep(t: TypedMatch, v: nat, holds: set<nat>, i: nat)
    requires WellTyped(t) && i < |t.arms|
    ensures t.arms[i].first + t.arms[i].count == Begin(t, i + 1) <= |t.alternatives|
    ensures var r, n := Select(t, v, holds, i), Select(t, v, holds, i + 1);
      || (r == n && forall h :: Begin(t, i) <= h < Begin(t, i + 1) ==> !Takes(t, v, holds, h))
      || (r.Some? && Begin(t, i) <= r.value < Begin(t, i + 1) && Takes(t, v, holds, r.value)
          && forall h :: Begin(t, i) <= h < r.value ==> !Takes(t, v, holds, h))
  {
    forall h | t.arms[i].first <= h < t.arms[i].first + t.arms[i].count
      ensures t.alternatives[h].arm == i
    {
      ArmOf(t, i, h);
    }
  }

  // ----- exactly which alternatives are useful -----

  /** While arm i is tested, alternative h has the first claim on what it admits. */
  predicate Claims(t: TypedMatch, i: nat, h: nat)
    requires WellTyped(t) && h < |t.alternatives|
  {
    t.alternatives[h].arm == i || !t.arms[t.alternatives[h].arm].guarded
  }

  /** The value is claimed, by alternatives before g, from arm i. */
  ghost predicate Claimed(t: TypedMatch, i: nat, g: nat, v: nat)
    requires WellTyped(t) && g <= |t.alternatives|
  {
    exists h :: 0 <= h < g && Claims(t, i, h) && Admits(t.alternatives[h].role, v)
  }

  /** An alternative is useful exactly when it admits a value nothing before it claims. */
  lemma UsefulIffUnclaimed(t: TypedMatch, g: nat)
    requires WellTyped(t) && g < |t.alternatives|
    ensures Useful(t, g) <==>
      exists v: nat :: v < t.constructors && Admits(t.alternatives[g].role, v) && !Claimed(t, t.alternatives[g].arm, g, v)
  {
    var i := t.alternatives[g].arm;
    if Useful(t, g) {
      var v: nat, holds: set<nat> :| v < t.constructors && Select(t, v, holds, 0) == Some(g);
      hide Select;
      SelectedIsUnclaimed(t, g, v, holds);
    }
    if v: nat :| v < t.constructors && Admits(t.alternatives[g].role, v) && !Claimed(t, i, g, v) {
      hide Select;
      UnclaimedIsSelected(t, g, v);
    }
  }

  lemma SelectedIsUnclaimed(t: TypedMatch, g: nat, v: nat, holds: set<nat>)
    requires WellTyped(t) && g < |t.alternatives| && Select(t, v, holds, 0) == Some(g)
    ensures Admits(t.alternatives[g].role, v) && !Claimed(t, t.alternatives[g].arm, g, v)
  {
    hide Select;
    SelectIsFirstTaker(t, v, holds, 0);
    BeginsAtZero(t);
    forall h | 0 <= h < g && Claims(t, t.alternatives[g].arm, h) ensures !Admits(t.alternatives[h].role, v) {
      assert !Takes(t, v, holds, h);
    }
  }

  lemma UnclaimedIsSelected(t: TypedMatch, g: nat, v: nat)
    requires WellTyped(t) && g < |t.alternatives|
    requires Admits(t.alternatives[g].role, v) && !Claimed(t, t.alternatives[g].arm, g, v)
    ensures Select(t, v, {t.alternatives[g].arm}, 0) == Some(g)
  {
    hide Select;
    var i := t.alternatives[g].arm;
    var holds := {i};
    SelectIsFirstTaker(t, v, holds, 0);
    BeginsAtZero(t);
    assert Takes(t, v, holds, g);
  }

  /** A value always selects something exactly when an unguarded alternative admits it. */
  lemma AlwaysSelectsIffClaimed(t: TypedMatch, v: nat)
    requires WellTyped(t)
    ensures AlwaysSelects(t, v) <==> Claimed(t, |t.arms|, |t.alternatives|, v)
  {
    hide Select;
    if Claimed(t, |t.arms|, |t.alternatives|, v) {
      var h :| 0 <= h < |t.alternatives| && Claims(t, |t.arms|, h) && Admits(t.alternatives[h].role, v);
      forall holds: set<nat> ensures Select(t, v, holds, 0).Some? {
        SelectIsFirstTaker(t, v, holds, 0);
        BeginsAtZero(t);
        assert Takes(t, v, holds, h);
      }
    } else {
      var holds: set<nat> := {};
      SelectIsFirstTaker(t, v, holds, 0);
      BeginsAtZero(t);
      if Select(t, v, holds, 0).Some? {
        assert false;
      }
    }
  }

  // ----- the running state of one constructor -----

  /**
   What the analysis knows about value v when it has tested the alternatives
   before g on behalf of arm i: whether it is claimed, and by which
   alternative first.
   */
  ghost predicate Knows(t: TypedMatch, i: nat, g: nat, v: nat, flag: bool, site: int)
    requires WellTyped(t) && g <= |t.alternatives|
  {
    if flag then
      && 0 <= site < g && Claims(t, i, site) && Admits(t.alternatives[site].role, v)
      && forall h :: 0 <= h < site ==> !(Claims(t, i, h) && Admits(t.alternatives[h].role, v))
    else
      site == -1 && !Claimed(t, i, g, v)
  }

  lemma KnowsDecides(t: TypedMatch, i: nat, g: nat, v: nat, flag: bool, site: int)
    requires WellTyped(t) && g <= |t.alternatives| && Knows(t, i, g, v, flag, site)
    ensures flag <==> Claimed(t, i, g, v)
  {
  }

  /** Entering an arm changes nothing that is known: no earlier alternative is its own. */
  lemma EnterArm(t: TypedMatch, i: nat, v: nat, flag: bool, site: int)
    requires WellTyped(t) && i < |t.arms| && Knows(t, |t.arms|, t.arms[i].first, v, flag, site)
    ensures Knows(t, i, t.arms[i].first, v, flag, site)
  {
    forall h | 0 <= h < t.arms[i].first
      ensures Claims(t, i, h) == Claims(t, |t.arms|, h)
    {
      if t.alternatives[h].arm == i { assert false; }
    }
  }

  /** Leaving an unguarded arm: its claims become claims for every later arm. */
  lemma LeaveUnguarded(t: TypedMatch, i: nat, v: nat, flag: bool, site: int)
    requires WellTyped(t) && i < |t.arms| && !t.arms[i].guarded
    requires Begin(t, i + 1) <= |t.alternatives| && Knows(t, i, Begin(t, i + 1), v, flag, site)
    ensures Knows(t, |t.arms|, Begin(t, i + 1), v, flag, site)
  {
    forall h | 0 <= h < Begin(t, i + 1)
      ensures Claims(t, i, h) == Claims(t, |t.arms|, h)
    {
    }
  }

  /** Leaving a guarded arm: it claims nothing. */
  lemma LeaveGuarded(t: TypedMatch, i: nat, v: nat, flag: bool, site: int)
    requires WellTyped(t) && i < |t.arms| && t.arms[i].guarded
    requires Begin(t, i + 1) <= |t.alternatives| && t.arms[i].first <= Begin(t, i + 1) == t.arms[i].first + t.arms[i].count
    requires Knows(t, |t.arms|, t.arms[i].first, v, flag, site)
    ensures Knows(t, |t.arms|, Begin(t, i + 1), v, flag, site)
  {
    forall h | t.arms[i].first <= h < Begin(t, i + 1)
      ensures !Claims(t, |t.arms|, h)
    {
      ArmOf(t, i, h);
    }
  }

  /** Testing one more alternative of the arm. */
  lemma TestAlternative(t: TypedMatch, i: nat, g: nat, v: nat, flag: bool, site: int)
    requires WellTyped(t) && g < |t.alternatives| && t.alternatives[g].arm == i && Knows(t, i, g, v, flag, site)
    ensures flag || !Admits(t.alternatives[g].role, v) ==> Knows(t, i, g + 1, v, flag, site)
    ensures !flag && Admits(t.alternatives[g].role, v) ==> Knows(t, i, g + 1, v, true, g)
  {
    assert Claims(t, i, g);
    if !flag && Admits(t.alternatives[g].role, v) {
      assert forall h :: 0 <= h < g ==> !(Claims(t, i, h) && Admits(t.alternatives[h].role, v));
    }
  }

  // ----- what a redundancy report cites -----

  ghost predicate Blocks(t: TypedMatch, g: nat, h: nat)
    requires WellTyped(t) && g < |t.alternatives| && h < |t.alternatives|
  {
    && Claims(t, t.alternatives[g].arm, h)
    && exists v :: 0 <= v < t.constructors && Admits(t.alternatives[g].role, v) && Admits(t.alternatives[h].role, v)
  }

  /** The earliest alternative that takes a value of g away from it. */
  ghost predicate Cited(t: TypedMatch, g: nat, c: nat)
    requires WellTyped(t) && g < |t.alternatives|
  {
    && c < g && Blocks(t, g, c)
    && forall h :: 0 <= h < c ==> !Blocks(t, g, h)
  }
}
