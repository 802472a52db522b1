/** Written order and declaration order of arguments. */
module Permutations {
  import opened Words
  import opened Core

  function Below(n: nat): (below: set<nat>)
    ensures forall k: nat :: k in below <==> k < n
  {
    if n == 0 then {} else Below(n - 1) + {n - 1}
  }

  lemma {:induction false} BelowSize(n: nat)
    ensures |Below(n)| == n
  {
    if n > 0 {
      BelowSize(n - 1);
    }
  }

  function Elements(order: seq<nat>): set<nat> {
    set w | 0 <= w < |order| :: order[w]
  }

  lemma {:induction false} ElementsSize(order: seq<nat>)
    requires forall v, w :: 0 <= v < w < |order| ==> order[v] != order[w]
    ensures |Elements(order)| == |order|
  {
    if order != [] {
      var init := order[..|order| - 1];
      ElementsSize(init);
      forall x | x in Elements(order)
        ensures x in Elements(init) + {order[|order| - 1]}
      {
        var w :| 0 <= w < |order| && order[w] == x;
        if w < |init| { assert init[w] == x; }
      }
      forall x | x in Elements(init)
        ensures x in Elements(order)
      {
        var w :| 0 <= w < |init| && init[w] == x;
        assert order[w] == x;
      }
      assert Elements(order) == Elements(init) + {order[|order| - 1]};
    }
  }

  lemma SubsetSameSize<T>(a: set<T>, b: set<T>)
    requires a <= b && |a| == |b|
    ensures a == b
  {
    if exists x :: x in b && x !in a {
      var x :| x in b && x !in a;
      assert a <= b - {x};
      SubsetSize(a, b - {x});
    }
  }

  lemma {:induction false} SubsetSize<T>(a: set<T>, b: set<T>)
    requires a <= b
    ensures |a| <= |b|
    decreases |a|
  {
    if a != {} {
      var x :| x in a;
      SubsetSize(a - {x}, b - {x});
    }
  }

  /** Every declaration slot is filled by exactly one written position. */
  lemma SlotIsWritten(order: seq<nat>, s: nat)
    requires IsPermutation(order) && s < |order|
    ensures exists w :: 0 <= w < |order| && order[w] == s
  {
    BelowSize(|order|);
    ElementsSize(order);
    assert Elements(order) <= Below(|order|);
    SubsetSameSize(Elements(order), Below(|order|));
    assert s in Elements(order);
  }

  lemma {:induction false} PositionFinds(order: seq<nat>, s: nat, w: nat)
    requires w < |order| && order[w] == s
    ensures Position(order, s) <= w && order[Position(order, s)] == s
  {
    if order[0] != s {
      PositionFinds(order[1..], s, w - 1);
      assert order[1..][Position(order[1..], s)] == order[1 + Position(order[1..], s)];
    }
  }

  /** Placement puts the w-th written value at the slot it was written for. */
  lemma PlaceAt(order: seq<nat>, words: seq<Word>, w: nat)
    requires IsPermutation(order) && |words| == |order| && w < |order|
    ensures |Place(order, words)| == |order| && order[w] < |order|
    ensures Place(order, words)[order[w]] == words[w]
  {
    PositionFinds(order, order[w], w);
    assert Position(order, order[w]) == w;
  }
}
