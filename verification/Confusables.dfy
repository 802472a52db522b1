/** Confusable identifiers visible together: sorting, grouping by skeleton, and one report for each colliding key. */
module Confusables {
  import opened Buffers
  import opened ByteOrder
  import opened Wrappers

  const BINDING_LIMIT: nat := 65536
  const RELATED_LIMIT: nat := 8
  const SPELLING_LIMIT: nat := 256

  datatype Binding = Binding(
    moduleId: Text, namespaceId: Text, bindingId: Text, targetId: Text,
    spelling: Text, siteKind: nat, provenance: Text, spanStart: nat, spanEnd: nat)

  predicate ValidBinding(b: Binding) {
    && 0 < |b.spelling| <= SPELLING_LIMIT
    && b.provenance != []
    && b.spanStart <= b.spanEnd
    && b.siteKind <= 2
  }

  /** One binding with its place in the input and the skeleton of its spelling. */
  datatype Work = Work(binding: Binding, input: nat, skeleton: Text)

  /** The fields the sort compares, in order. */
  function SortKey(w: Work): (k: Key)
    ensures |k| == 9
  {
    [Bytes(w.binding.moduleId), Bytes(w.binding.namespaceId), Bytes(w.skeleton), Bytes(w.binding.spelling),
     Bytes(w.binding.bindingId), Bytes(w.binding.targetId), Bytes(w.binding.provenance),
     Number(w.binding.spanStart), Number(w.binding.spanEnd)]
  }

  /** Bindings of one module and namespace with the same skeleton can be confused. */
  datatype CollisionKey = CollisionKey(moduleId: Text, namespaceId: Text, skeleton: Text)

  function KeyOf(w: Work): CollisionKey {
    CollisionKey(w.binding.moduleId, w.binding.namespaceId, w.skeleton)
  }

  /** The comparison of two items, field by field. */
  predicate WorkAtMost(a: Work, b: Work) {
    var x, y := a.binding, b.binding;
    if x.moduleId != y.moduleId then Before(x.moduleId, y.moduleId)
    else if x.namespaceId != y.namespaceId then Before(x.namespaceId, y.namespaceId)
    else if a.skeleton != b.skeleton then Before(a.skeleton, b.skeleton)
    else if x.spelling != y.spelling then Before(x.spelling, y.spelling)
    else TieAtMost(x, y)
  }

  /** Between bindings of one spelling. */
  predicate TieAtMost(x: Binding, y: Binding) {
    if x.bindingId != y.bindingId then Before(x.bindingId, y.bindingId)
    else if x.targetId != y.targetId then Before(x.targetId, y.targetId)
    else if x.provenance != y.provenance then Before(x.provenance, y.provenance)
    else if x.spanStart != y.spanStart then x.spanStart < y.spanStart
    else x.spanEnd <= y.spanEnd
  }

  lemma WorkOrder(a: Work, b: Work)
    ensures WorkAtMost(a, b) <==> AtMost(SortKey(a), SortKey(b))
  {
    hide AtMost, TieAtMost;
    var x, y := SortKey(a), SortKey(b);
    assert x[0..] == x && y[0..] == y;
    AtMostAt(x, y, 0);
    AtMostAt(x, y, 1);
    AtMostAt(x, y, 2);
    AtMostAt(x, y, 3);
    TieOrder(a, b);
  }

  lemma TieOrder(a: Work, b: Work)
    ensures TieAtMost(a.binding, b.binding) <==> AtMost(SortKey(a)[4..], SortKey(b)[4..])
  {
    hide AtMost;
    var x, y := SortKey(a), SortKey(b);
    AtMostAt(x, y, 4);
    AtMostAt(x, y, 5);
    AtMostAt(x, y, 6);
    AtMostAt(x, y, 7);
    AtMostAt(x, y, 8);
    AtMostTotal(x[9..], y[9..]);
    assert x[9..] == y[9..];
  }

  ghost predicate Sorted(ws: seq<Work>) {
    forall i, j :: 0 <= i <= j < |ws| ==> AtMost(SortKey(ws[i]), SortKey(ws[j]))
  }

  // ----- sorting -----

  /** The place before which an item belongs in a sorted sequence. */
  method Place(ws: seq<Work>, w: Work) returns (at: nat)
    requires Sorted(ws)
    ensures at <= |ws|
    ensures forall i :: 0 <= i < at ==> AtMost(SortKey(ws[i]), SortKey(w))
    ensures forall i :: at <= i < |ws| ==> AtMost(SortKey(w), SortKey(ws[i]))
  {
    hide SortKey, AtMost, WorkAtMost;
    at := |ws|;
    if at > 0 { WorkOrder(ws[at - 1], w); }
    while at > 0 && !WorkAtMost(ws[at - 1], w)
      invariant at <= |ws|
      invariant forall i :: at <= i < |ws| ==> AtMost(SortKey(w), SortKey(ws[i]))
      invariant at > 0 ==> (WorkAtMost(ws[at - 1], w) <==> AtMost(SortKey(ws[at - 1]), SortKey(w)))
    {
      if at > 1 { WorkOrder(ws[at - 2], w); }
      AtMostTotal(SortKey(ws[at - 1]), SortKey(w));
      at := at - 1;
    }
    forall i | 0 <= i < at ensures AtMost(SortKey(ws[i]), SortKey(w)) {
      AtMostTransitive(SortKey(ws[i]), SortKey(ws[at - 1]), SortKey(w));
    }
  }

  lemma InsertSorts(ws: seq<Work>, w: Work, at: nat)
    requires Sorted(ws) && at <= |ws|
    requires forall i :: 0 <= i < at ==> AtMost(SortKey(ws[i]), SortKey(w))
    requires forall i :: at <= i < |ws| ==> AtMost(SortKey(w), SortKey(ws[i]))
    ensures Sorted(ws[..at] + [w] + ws[at..])
    ensures multiset(ws[..at] + [w] + ws[at..]) == multiset(ws) + multiset{w}
  {
    hide SortKey, AtMost;
    AtMostTotal(SortKey(w), SortKey(w));
    assert ws == ws[..at] + ws[at..];
  }

  /** Sorts by the nine fields. */
  method Sort(ws: seq<Work>) returns (sorted: seq<Work>)
    ensures Sorted(sorted) && multiset(sorted) == multiset(ws)
  {
    sorted := [];
    var index := 0;
    while index < |ws|
      invariant 0 <= index <= |ws| && Sorted(sorted) && multiset(sorted) == multiset(ws[..index])
    {
      var at := Place(sorted, ws[index]);
      InsertSorts(sorted, ws[index], at);
      assert ws[..index + 1] == ws[..index] + [ws[index]];
      sorted := sorted[..at] + [ws[index]] + sorted[at..];
      index := index + 1;
    }
    assert ws[..index] == ws;
  }

  // ----- what should be reported -----

  function Spellings(ws: seq<Work>, key: CollisionKey): set<Text> {
    set w | w in ws && KeyOf(w) == key :: w.binding.spelling
  }

  /** The keys under which at least two different spellings are visible. */
  ghost function CollisionKeys(ws: seq<Work>): set<CollisionKey> {
    set w | w in ws && |Spellings(ws, KeyOf(w))| >= 2 :: KeyOf(w)
  }

  datatype Diagnostic = Diagnostic(primary: nat, related: seq<nat>, omitted: nat)

  /** A candidate outranks the binding chosen so far. */
  predicate Outranks(candidate: Binding, current: Binding) {
    if candidate.bindingId != current.bindingId then Before(current.bindingId, candidate.bindingId)
    else if candidate.siteKind != current.siteKind then candidate.siteKind > current.siteKind
    else Before(current.provenance, candidate.provenance)
  }

  /** What outranking compares. */
  function RankKey(b: Binding): Key {
    [Bytes(b.bindingId), Number(b.siteKind), Bytes(b.provenance)]
  }

  /** No binding of the key outranks it, and of its own rank it is sorted first. */
  ghost predicate Primary(ws: seq<Work>, key: CollisionKey, w: Work) {
    && w in ws && KeyOf(w) == key
    && forall o :: o in ws && KeyOf(o) == key ==>
        !Outranks(o.binding, w.binding) && (RankKey(o.binding) == RankKey(w.binding) ==> AtMost(SortKey(w), SortKey(o)))
  }

  /** Of the key's bindings with its spelling it is sorted first. */
  ghost predicate StandsFor(ws: seq<Work>, key: CollisionKey, w: Work) {
    && w in ws && KeyOf(w) == key
    && forall o :: o in ws && KeyOf(o) == key && o.binding.spelling == w.binding.spelling ==> AtMost(SortKey(w), SortKey(o))
  }

  function RelatedKey(w: Work): Key {
    [Bytes(w.binding.namespaceId), Bytes(w.binding.bindingId), Bytes(w.binding.provenance), Bytes(w.binding.spelling)]
  }

  /** The comparison of two representatives, field by field. */
  predicate RelatedAtMost(a: Work, b: Work) {
    var x, y := a.binding, b.binding;
    if x.namespaceId != y.namespaceId then Before(x.namespaceId, y.namespaceId)
    else if x.bindingId != y.bindingId then Before(x.bindingId, y.bindingId)
    else if x.provenance != y.provenance then Before(x.provenance, y.provenance)
    else x.spelling == y.spelling || Before(x.spelling, y.spelling)
  }

  lemma RelatedOrder(a: Work, b: Work)
    ensures RelatedAtMost(a, b) <==> AtMost(RelatedKey(a), RelatedKey(b))
  {
    hide AtMost;
    var x, y := RelatedKey(a), RelatedKey(b);
    assert x[0..] == x && y[0..] == y;
    AtMostAt(x, y, 0);
    AtMostAt(x, y, 1);
    AtMostAt(x, y, 2);
    AtMostAt(x, y, 3);
    AtMostTotal(x[4..], y[4..]);
    assert x[4..] == y[4..];
  }

  ghost predicate RelatedSorted(rs: seq<Work>) {
    forall i, j :: 0 <= i <= j < |rs| ==> AtMost(RelatedKey(rs[i]), RelatedKey(rs[j]))
  }

  ghost predicate DistinctSpellings(rs: seq<Work>) {
    forall i, j :: 0 <= i < j < |rs| ==> rs[i].binding.spelling != rs[j].binding.spelling
  }

  function SpellingsOf(rs: seq<Work>): set<Text> {
    set w | w in rs :: w.binding.spelling
  }

  /** One binding for each of the given spellings. */
  ghost predicate Represent(rs: seq<Work>, ws: seq<Work>, key: CollisionKey, spellings: set<Text>) {
    && (forall w :: w in rs ==> StandsFor(ws, key, w))
    && SpellingsOf(rs) == spellings && DistinctSpellings(rs) && |rs| == |spellings|
  }

  /**
   The report for one key: its primary binding, and of the bindings that stand
   for its other spellings, in the order of the reports, the first eight and how
   many there are besides.
   */
  ghost predicate Describes(d: Diagnostic, ws: seq<Work>, key: CollisionKey, primary: Work, others: seq<Work>) {
    && Primary(ws, key, primary) && d.primary == primary.input
    && Represent(others, ws, key, Spellings(ws, key) - {primary.binding.spelling}) && RelatedSorted(others)
    && |others| == |Spellings(ws, key)| - 1
    && |d.related| == (if |others| < RELATED_LIMIT then |others| else RELATED_LIMIT)
    && (forall i :: 0 <= i < |d.related| ==> d.related[i] == others[i].input)
    && d.omitted == |others| - |d.related|
  }

  // ----- groups of the sorted items -----

  /** The items [from, end) are all those of one key. */
  ghost predicate Group(ws: seq<Work>, from: nat, end: nat) {
    && from < end <= |ws|
    && (forall i :: from <= i < end ==> KeyOf(ws[i]) == KeyOf(ws[from]))
    && (forall i :: 0 <= i < |ws| && !(from <= i < end) ==> KeyOf(ws[i]) != KeyOf(ws[from]))
  }

  lemma SameKeyPrefix(a: Work, b: Work)
    ensures KeyOf(a) == KeyOf(b) <==> SortKey(a)[..3] == SortKey(b)[..3]
  {
    var x, y := SortKey(a)[..3], SortKey(b)[..3];
    assert x == y <==> x[0] == y[0] && x[1] == y[1] && x[2] == y[2];
  }

  lemma SameSpellingPrefix(a: Work, b: Work)
    ensures KeyOf(a) == KeyOf(b) && a.binding.spelling == b.binding.spelling <==> SortKey(a)[..4] == SortKey(b)[..4]
  {
    var x, y := SortKey(a)[..4], SortKey(b)[..4];
    assert x == y <==> x[0] == y[0] && x[1] == y[1] && x[2] == y[2] && x[3] == y[3];
  }

  /** Sorting brings equal keys together. */
  lemma KeysTogether(ws: seq<Work>, i: nat, j: nat, k: nat)
    requires Sorted(ws) && i <= j <= k < |ws| && KeyOf(ws[i]) == KeyOf(ws[k])
    ensures KeyOf(ws[j]) == KeyOf(ws[i])
  {
    hide AtMost, SortKey;
    SameKeyPrefix(ws[i], ws[k]);
    PrefixBetween(SortKey(ws[i]), SortKey(ws[j]), SortKey(ws[k]), 3);
    SameKeyPrefix(ws[i], ws[j]);
  }

  /** And, within a key, equal spellings. */
  lemma SpellingsTogether(ws: seq<Work>, i: nat, j: nat, k: nat)
    requires Sorted(ws) && i <= j <= k < |ws| && KeyOf(ws[i]) == KeyOf(ws[k])
    requires ws[i].binding.spelling == ws[k].binding.spelling
    ensures ws[j].binding.spelling == ws[i].binding.spelling
  {
    hide AtMost, SortKey;
    SameSpellingPrefix(ws[i], ws[k]);
    PrefixBetween(SortKey(ws[i]), SortKey(ws[j]), SortKey(ws[k]), 4);
    SameSpellingPrefix(ws[i], ws[j]);
  }

  /** The spellings of a run of items. */
  function RunSpellings(ws: seq<Work>, from: nat, end: nat): set<Text>
    requires from <= end <= |ws|
  {
    if from == end then {} else RunSpellings(ws, from, end - 1) + {ws[end - 1].binding.spelling}
  }

  lemma {:induction false} InRun(ws: seq<Work>, from: nat, end: nat, s: Text)
    requires from <= end <= |ws|
    ensures s in RunSpellings(ws, from, end) <==> exists i :: from <= i < end && ws[i].binding.spelling == s
  {
    if from < end {
      InRun(ws, from, end - 1, s);
      if s == ws[end - 1].binding.spelling { assert ws[end - 1].binding.spelling == s; }
    }
  }

  lemma GroupSpellings(ws: seq<Work>, from: nat, end: nat)
    requires Group(ws, from, end)
    ensures RunSpellings(ws, from, end) == Spellings(ws, KeyOf(ws[from]))
  {
    var key := KeyOf(ws[from]);
    forall s ensures s in RunSpellings(ws, from, end) <==> s in Spellings(ws, key) {
      InRun(ws, from, end, s);
      if s in RunSpellings(ws, from, end) {
        var i :| from <= i < end && ws[i].binding.spelling == s;
        assert ws[i] in ws && KeyOf(ws[i]) == key;
      }
      if s in Spellings(ws, key) {
        var w :| w in ws && KeyOf(w) == key && w.binding.spelling == s;
        var i :| 0 <= i < |ws| && ws[i] == w;
      }
    }
  }

  /** A spelling that differs from its predecessor's is new to the run. */
  lemma NewSpelling(ws: seq<Work>, from: nat, at: nat)
    requires Sorted(ws) && from < at < |ws| && KeyOf(ws[at]) == KeyOf(ws[from])
    requires forall i :: from <= i < at ==> KeyOf(ws[i]) == KeyOf(ws[from])
    ensures ws[at].binding.spelling in RunSpellings(ws, from, at) <==>
      ws[at].binding.spelling == ws[at - 1].binding.spelling
  {
    var s := ws[at].binding.spelling;
    InRun(ws, from, at, s);
    if s in RunSpellings(ws, from, at) {
      var i :| from <= i < at && ws[i].binding.spelling == s;
      SpellingsTogether(ws, i, at - 1, at);
    }
    if s == ws[at - 1].binding.spelling { assert from <= at - 1 < at; }
  }

  /** The group that starts at an item, and how many spellings it has. */
  method FindGroup(ws: seq<Work>, from: nat) returns (end: nat, unique: nat)
    requires Sorted(ws) && from < |ws|
    requires from > 0 ==> KeyOf(ws[from - 1]) != KeyOf(ws[from])
    ensures Group(ws, from, end) && unique == |Spellings(ws, KeyOf(ws[from]))|
  {
    hide Sorted, RunSpellings, KeyOf;
    end := from + 1;
    unique := 1;
    OneSpelling(ws, from);
    while end < |ws| && KeyOf(ws[from]) == KeyOf(ws[end])
      invariant from < end <= |ws|
      invariant forall i :: from <= i < end ==> KeyOf(ws[i]) == KeyOf(ws[from])
      invariant unique == |RunSpellings(ws, from, end)|
    {
      NewSpelling(ws, from, end);
      OneMoreSpelling(ws, from, end);
      if ws[end - 1].binding.spelling != ws[end].binding.spelling { unique := unique + 1; }
      end := end + 1;
    }
    forall i | 0 <= i < |ws| && !(from <= i < end) ensures KeyOf(ws[i]) != KeyOf(ws[from]) {
      if KeyOf(ws[i]) == KeyOf(ws[from]) {
        if i < from { KeysTogether(ws, i, from - 1, from); } else { KeysTogether(ws, from, end, i); }
      }
    }
    GroupSpellings(ws, from, end);
  }

  lemma OneSpelling(ws: seq<Work>, from: nat)
    requires from < |ws|
    ensures RunSpellings(ws, from, from + 1) == {ws[from].binding.spelling}
  {
    assert RunSpellings(ws, from, from) == {};
  }

  lemma OneMoreSpelling(ws: seq<Work>, from: nat, at: nat)
    requires from <= at < |ws|
    ensures RunSpellings(ws, from, at + 1) == RunSpellings(ws, from, at) + {ws[at].binding.spelling}
    ensures ws[at].binding.spelling in RunSpellings(ws, from, at) ==> RunSpellings(ws, from, at + 1) == RunSpellings(ws, from, at)
    ensures ws[at].binding.spelling !in RunSpellings(ws, from, at) ==>
      |RunSpellings(ws, from, at + 1)| == |RunSpellings(ws, from, at)| + 1
  {
  }

  // ----- the primary binding -----

  /** Outranking is the order of binding identity, then site kind, then provenance. */
  lemma OutranksIsOrder(a: Binding, b: Binding)
    ensures Outranks(a, b) <==> !AtMost(RankKey(a), RankKey(b))
  {
    BeforeTotal(a.bindingId, b.bindingId);
    BeforeTotal(a.provenance, b.provenance);
    RankUnfolds(RankKey(a), RankKey(b));
  }

  lemma RankUnfolds(a: Key, b: Key)
    requires |a| == |b| == 3
    ensures AtMost(a, b) <==>
      if a[0] != b[0] then FieldBefore(a[0], b[0])
      else if a[1] != b[1] then FieldBefore(a[1], b[1])
      else a[2] == b[2] || FieldBefore(a[2], b[2])
  {
    assert AtMost(a[1..], b[1..]) <==> if a[1] != b[1] then FieldBefore(a[1], b[1]) else AtMost(a[1..][1..], b[1..][1..]);
    assert a[1..][1..][0] == a[2] && b[1..][1..][0] == b[2];
    assert a[1..][1..][1..] == [] && b[1..][1..][1..] == [];
    FieldTotal(a[2], b[2]);
  }

  method FindPrimary(ws: seq<Work>, from: nat, end: nat) returns (primary: nat)
    requires from < end <= |ws|
    ensures from <= primary < end
    ensures forall i :: from <= i < end ==> !Outranks(ws[i].binding, ws[primary].binding)
    ensures forall i :: from <= i < primary ==> Outranks(ws[primary].binding, ws[i].binding)
  {
    hide Outranks, AtMost, RankKey;
    primary := from;
    OutranksIsOrder(ws[from].binding, ws[from].binding);
    AtMostTotal(RankKey(ws[from].binding), RankKey(ws[from].binding));
    var cursor := from + 1;
    while cursor < end
      invariant from <= primary < cursor <= end
      invariant forall i :: from <= i < cursor ==> !Outranks(ws[i].binding, ws[primary].binding)
      invariant forall i :: from <= i < primary ==> Outranks(ws[primary].binding, ws[i].binding)
    {
      if Outranks(ws[cursor].binding, ws[primary].binding) {
        forall i | from <= i <= cursor
          ensures !Outranks(ws[i].binding, ws[cursor].binding)
          ensures i < cursor ==> Outranks(ws[cursor].binding, ws[i].binding)
        {
          StillOutranked(ws[i].binding, ws[primary].binding, ws[cursor].binding);
        }
        primary := cursor;
      }
      cursor := cursor + 1;
    }
  }

  lemma StillOutranked(a: Binding, b: Binding, c: Binding)
    requires (a == c || !Outranks(a, b)) && Outranks(c, b)
    ensures !Outranks(a, c) && (!Outranks(a, b) ==> Outranks(c, a))
  {
    hide Outranks, AtMost, RankKey;
    OutranksIsOrder(a, b);
    OutranksIsOrder(c, b);
    OutranksIsOrder(a, c);
    OutranksIsOrder(c, a);
    AtMostTotal(RankKey(b), RankKey(c));
    AtMostTotal(RankKey(c), RankKey(c));
    if !Outranks(a, b) {
      AtMostTransitive(RankKey(a), RankKey(b), RankKey(c));
      if AtMost(RankKey(c), RankKey(a)) { AtMostTransitive(RankKey(c), RankKey(a), RankKey(b)); }
    }
  }

  lemma PrimaryFound(ws: seq<Work>, from: nat, end: nat, primary: nat)
    requires Sorted(ws) && Group(ws, from, end) && from <= primary < end
    requires forall i :: from <= i < end ==> !Outranks(ws[i].binding, ws[primary].binding)
    requires forall i :: from <= i < primary ==> Outranks(ws[primary].binding, ws[i].binding)
    ensures Primary(ws, KeyOf(ws[from]), ws[primary])
  {
    hide Outranks, AtMost, RankKey, SortKey, KeyOf;
    forall o | o in ws && KeyOf(o) == KeyOf(ws[from])
      ensures !Outranks(o.binding, ws[primary].binding)
      ensures RankKey(o.binding) == RankKey(ws[primary].binding) ==> AtMost(SortKey(ws[primary]), SortKey(o))
    {
      var i :| 0 <= i < |ws| && ws[i] == o;
      OutranksIsOrder(ws[primary].binding, o.binding);
      AtMostTotal(RankKey(o.binding), RankKey(o.binding));
    }
  }

  // ----- the related bindings -----

  lemma FirstStands(ws: seq<Work>, from: nat, end: nat, cursor: nat)
    requires Sorted(ws) && Group(ws, from, end) && from <= cursor < end
    requires ws[cursor].binding.spelling !in RunSpellings(ws, from, cursor)
    ensures StandsFor(ws, KeyOf(ws[from]), ws[cursor])
  {
    hide AtMost, SortKey, KeyOf, RunSpellings;
    forall o | o in ws && KeyOf(o) == KeyOf(ws[from]) && o.binding.spelling == ws[cursor].binding.spelling
      ensures AtMost(SortKey(ws[cursor]), SortKey(o))
    {
      var i :| 0 <= i < |ws| && ws[i] == o;
      if i < cursor { InRun(ws, from, cursor, o.binding.spelling); }
    }
  }

  /** One item for each spelling of the group other than the primary's. */
  method Representatives(ws: seq<Work>, from: nat, end: nat, primary: nat) returns (rs: seq<Work>)
    requires Sorted(ws) && Group(ws, from, end) && from <= primary < end
    ensures Represent(rs, ws, KeyOf(ws[from]), Spellings(ws, KeyOf(ws[from])) - {ws[primary].binding.spelling})
    ensures |rs| == |Spellings(ws, KeyOf(ws[from]))| - 1
  {
    hide Sorted, RunSpellings, Spellings, Represent, KeyOf;
    ghost var apart := {ws[primary].binding.spelling};
    rs := [];
    var cursor := from;
    NoneRepresented(ws, from, KeyOf(ws[from]), apart);
    while cursor < end
      invariant from <= cursor <= end <= |ws|
      invariant Represent(rs, ws, KeyOf(ws[from]), RunSpellings(ws, from, cursor) - apart)
    {
      NextRepresented(rs, ws, from, end, cursor, ws[primary].binding.spelling);
      if cursor != from && ws[cursor - 1].binding.spelling == ws[cursor].binding.spelling {
      } else if ws[cursor].binding.spelling != ws[primary].binding.spelling {
        rs := rs + [ws[cursor]];
      }
      cursor := cursor + 1;
    }
    GroupSpellings(ws, from, end);
    PrimaryCounts(ws, from, end, primary);
    RepresentSize(rs, ws, KeyOf(ws[from]), Spellings(ws, KeyOf(ws[from])) - apart);
  }

  lemma NoneRepresented(ws: seq<Work>, from: nat, key: CollisionKey, apart: set<Text>)
    requires from <= |ws|
    ensures Represent([], ws, key, RunSpellings(ws, from, from) - apart)
  {
    EmptyRun(ws, from);
  }

  lemma NextRepresented(rs: seq<Work>, ws: seq<Work>, from: nat, end: nat, cursor: nat, spelling: Text)
    requires Sorted(ws) && Group(ws, from, end) && from <= cursor < end
    requires Represent(rs, ws, KeyOf(ws[from]), RunSpellings(ws, from, cursor) - {spelling})
    ensures var repeated := cursor != from && ws[cursor - 1].binding.spelling == ws[cursor].binding.spelling;
      Represent(if repeated || ws[cursor].binding.spelling == spelling then rs else rs + [ws[cursor]],
        ws, KeyOf(ws[from]), RunSpellings(ws, from, cursor + 1) - {spelling})
  {
    hide Sorted, RunSpellings, Represent, KeyOf, StandsFor;
    var seen := RunSpellings(ws, from, cursor);
    if cursor > from { NewSpelling(ws, from, cursor); } else { EmptyRun(ws, from); }
    OneMoreSpelling(ws, from, cursor);
    if ws[cursor].binding.spelling == spelling {
      assert seen + {spelling} - {spelling} == seen - {spelling};
    } else if ws[cursor].binding.spelling !in seen {
      FirstStands(ws, from, end, cursor);
      OneMoreRepresented(rs, ws, KeyOf(ws[from]), seen, {spelling}, ws[cursor]);
    }
  }

  lemma RepresentSize(rs: seq<Work>, ws: seq<Work>, key: CollisionKey, spellings: set<Text>)
    requires Represent(rs, ws, key, spellings)
    ensures |rs| == |spellings|
  {}

  lemma OneMoreRepresented(rs: seq<Work>, ws: seq<Work>, key: CollisionKey, seen: set<Text>, apart: set<Text>, w: Work)
    requires Represent(rs, ws, key, seen - apart) && StandsFor(ws, key, w)
    requires w.binding.spelling !in seen && w.binding.spelling !in apart
    ensures Represent(rs + [w], ws, key, seen + {w.binding.spelling} - apart)
  {
    hide StandsFor, KeyOf;
    OneMoreApart(seen, apart, w.binding.spelling);
    forall i | 0 <= i < |rs| ensures rs[i].binding.spelling != w.binding.spelling {
      assert rs[i] in rs && rs[i].binding.spelling in SpellingsOf(rs);
    }
    assert SpellingsOf(rs + [w]) == SpellingsOf(rs) + {w.binding.spelling};
    assert seen + {w.binding.spelling} - apart == (seen - apart) + {w.binding.spelling};
  }

  lemma EmptyRun(ws: seq<Work>, from: nat)
    requires from <= |ws|
    ensures RunSpellings(ws, from, from) == {}
  {
  }

  lemma OneMoreApart(seen: set<Text>, apart: set<Text>, s: Text)
    requires s !in seen && s !in apart
    ensures |seen + {s} - apart| == |seen - apart| + 1
  {
    assert seen + {s} - apart == (seen - apart) + {s};
  }

  lemma PrimaryCounts(ws: seq<Work>, from: nat, end: nat, primary: nat)
    requires from <= primary < end <= |ws|
    ensures |RunSpellings(ws, from, end) - {ws[primary].binding.spelling}| == |RunSpellings(ws, from, end)| - 1
  {
    InRun(ws, from, end, ws[primary].binding.spelling);
  }

  method RelatedPlace(rs: seq<Work>, w: Work) returns (at: nat)
    requires RelatedSorted(rs)
    ensures at <= |rs| && RelatedSorted(rs[..at] + [w] + rs[at..])
  {
    hide RelatedKey, AtMost, RelatedAtMost;
    at := |rs|;
    if at > 0 { RelatedOrder(rs[at - 1], w); }
    while at > 0 && !RelatedAtMost(rs[at - 1], w)
      invariant at <= |rs|
      invariant forall i :: at <= i < |rs| ==> AtMost(RelatedKey(w), RelatedKey(rs[i]))
      invariant at > 0 ==> (RelatedAtMost(rs[at - 1], w) <==> AtMost(RelatedKey(rs[at - 1]), RelatedKey(w)))
    {
      if at > 1 { RelatedOrder(rs[at - 2], w); }
      AtMostTotal(RelatedKey(rs[at - 1]), RelatedKey(w));
      at := at - 1;
    }
    forall i | 0 <= i < at ensures AtMost(RelatedKey(rs[i]), RelatedKey(w)) {
      AtMostTransitive(RelatedKey(rs[i]), RelatedKey(rs[at - 1]), RelatedKey(w));
    }
    AtMostTotal(RelatedKey(w), RelatedKey(w));
  }

  method SortRepresentatives(rs: seq<Work>) returns (sorted: seq<Work>)
    requires DistinctSpellings(rs)
    ensures multiset(sorted) == multiset(rs) && RelatedSorted(sorted) && DistinctSpellings(sorted)
  {
    sorted := [];
    assert RelatedSorted(sorted);
    hide RelatedSorted;
    var index := 0;
    while index < |rs|
      invariant 0 <= index <= |rs| && multiset(sorted) == multiset(rs[..index])
      invariant RelatedSorted(sorted) && DistinctSpellings(sorted)
    {
      var at := RelatedPlace(sorted, rs[index]);
      InsertDistinct(rs, index, sorted, at);
      sorted := sorted[..at] + [rs[index]] + sorted[at..];
      index := index + 1;
    }
    assert rs[..index] == rs;
  }

  lemma InsertDistinct(rs: seq<Work>, index: nat, sorted: seq<Work>, at: nat)
    requires index < |rs| && at <= |sorted| && DistinctSpellings(rs) && DistinctSpellings(sorted)
    requires multiset(sorted) == multiset(rs[..index])
    ensures DistinctSpellings(sorted[..at] + [rs[index]] + sorted[at..])
    ensures multiset(sorted[..at] + [rs[index]] + sorted[at..]) == multiset(rs[..index + 1])
  {
    InsertCounts(rs, index, sorted, at);
    forall i | 0 <= i < |sorted| ensures sorted[i].binding.spelling != rs[index].binding.spelling {
      assert sorted[i] in multiset(rs[..index]);
      var k :| 0 <= k < index && rs[..index][k] == sorted[i];
    }
  }

  lemma InsertCounts(rs: seq<Work>, index: nat, sorted: seq<Work>, at: nat)
    requires index < |rs| && at <= |sorted| && multiset(sorted) == multiset(rs[..index])
    ensures multiset(sorted[..at] + [rs[index]] + sorted[at..]) == multiset(rs[..index + 1])
  {
    assert rs[..index + 1] == rs[..index] + [rs[index]];
    assert sorted == sorted[..at] + sorted[at..];
  }

  lemma SortedRepresent(rs: seq<Work>, sorted: seq<Work>, ws: seq<Work>, key: CollisionKey, spellings: set<Text>)
    requires Represent(rs, ws, key, spellings) && multiset(sorted) == multiset(rs) && DistinctSpellings(sorted)
    ensures Represent(sorted, ws, key, spellings) && |sorted| == |rs|
  {
    hide StandsFor;
    assert |sorted| == |multiset(sorted)| && |rs| == |multiset(rs)|;
    assert forall w :: w in sorted <==> w in multiset(sorted);
    assert forall w :: w in rs <==> w in multiset(rs);
    assert SpellingsOf(sorted) == SpellingsOf(rs);
  }

  // ----- the check -----

  datatype Status = Ok | Collision | InvalidInput | LimitExhausted | ResourceFailure | OutputTooSmall

  /** The status of the first input that cannot be prepared, or Ok. */
  function InputStatus(bindings: seq<Binding>, skeletonOf: Text -> Option<Text>): Status {
    if bindings == [] then Ok
    else
      var before := InputStatus(bindings[..|bindings| - 1], skeletonOf);
      var last := bindings[|bindings| - 1];
      if before != Ok then before
      else if !ValidBinding(last) then InvalidInput
      else if skeletonOf(last.spelling).None? then ResourceFailure
      else Ok
  }

  function Prepared(bindings: seq<Binding>, skeletonOf: Text -> Option<Text>): (ws: seq<Work>)
    ensures |ws| == |bindings|
    ensures forall i :: 0 <= i < |bindings| ==>
      ws[i].binding == bindings[i] && ws[i].input == i
      && (skeletonOf(bindings[i].spelling).Some? ==> ws[i].skeleton == skeletonOf(bindings[i].spelling).value)
  {
    seq(|bindings|, i requires 0 <= i < |bindings| =>
      Work(bindings[i], i, match skeletonOf(bindings[i].spelling) case Some(s) => s case None => []))
  }

  method Prepare(bindings: seq<Binding>, skeletonOf: Text -> Option<Text>) returns (status: Status, ws: seq<Work>)
    ensures status == InputStatus(bindings, skeletonOf)
    ensures status == Ok ==> ws == Prepared(bindings, skeletonOf)
  {
    ws := [];
    var index := 0;
    while index < |bindings|
      invariant 0 <= index <= |bindings| && |ws| == index
      invariant InputStatus(bindings[..index], skeletonOf) == Ok
      invariant forall i :: 0 <= i < index ==> ws[i] == Prepared(bindings, skeletonOf)[i]
    {
      assert bindings[..index + 1][..index] == bindings[..index];
      var skeleton := skeletonOf(bindings[index].spelling);
      var b := bindings[index];
      if b.spelling == [] || |b.spelling| > 256 || b.provenance == [] || b.spanStart > b.spanEnd || b.siteKind > 2 {
        FailureStays(bindings, skeletonOf, index + 1);
        return InvalidInput, ws;
      }
      if skeleton.None? {
        FailureStays(bindings, skeletonOf, index + 1);
        return ResourceFailure, ws;
      }
      ws := ws + [Work(bindings[index], index, skeleton.value)];
      index := index + 1;
    }
    assert bindings[..index] == bindings;
    status := Ok;
  }

  lemma {:induction false} FailureStays(bindings: seq<Binding>, skeletonOf: Text -> Option<Text>, n: nat)
    requires n <= |bindings| && InputStatus(bindings[..n], skeletonOf) != Ok
    ensures InputStatus(bindings, skeletonOf) == InputStatus(bindings[..n], skeletonOf)
  {
    if n == |bindings| {
      assert bindings[..n] == bindings;
    } else {
      assert bindings[..|bindings| - 1][..n] == bindings[..n];
      FailureStays(bindings[..|bindings| - 1], skeletonOf, n);
    }
  }

  ghost predicate Described(d: Diagnostic, ws: seq<Work>, key: CollisionKey) {
    exists primary, others :: Describes(d, ws, key, primary, others)
  }

  /** Reports one group with several spellings. */
  method Report(ws: seq<Work>, from: nat, end: nat) returns (d: Diagnostic)
    requires Sorted(ws) && Group(ws, from, end) && |Spellings(ws, KeyOf(ws[from]))| >= 2
    ensures Described(d, ws, KeyOf(ws[from]))
  {
    hide Sorted, Spellings, KeyOf, Outranks, Represent, RelatedSorted, Primary;
    var primary := FindPrimary(ws, from, end);
    PrimaryFound(ws, from, end, primary);
    var rs := Representatives(ws, from, end, primary);
    DistinctOnes(rs, ws, KeyOf(ws[from]), Spellings(ws, KeyOf(ws[from])) - {ws[primary].binding.spelling});
    var sorted := SortRepresentatives(rs);
    SortedRepresent(rs, sorted, ws, KeyOf(ws[from]), Spellings(ws, KeyOf(ws[from])) - {ws[primary].binding.spelling});
    var emitted := if |sorted| < RELATED_LIMIT then |sorted| else RELATED_LIMIT;
    d := Diagnostic(ws[primary].input, seq(emitted, i requires 0 <= i < emitted => sorted[i].input), |sorted| - emitted);
    assert Describes(d, ws, KeyOf(ws[from]), ws[primary], sorted);
  }

  lemma DistinctOnes(rs: seq<Work>, ws: seq<Work>, key: CollisionKey, spellings: set<Text>)
    requires Represent(rs, ws, key, spellings)
    ensures DistinctSpellings(rs)
  {}

  function KeyFields(key: CollisionKey): Key {
    [Bytes(key.moduleId), Bytes(key.namespaceId), Bytes(key.skeleton)]
  }

  /** Different keys in the order of their fields. */
  ghost predicate KeysAscend(keys: seq<CollisionKey>) {
    && (forall i, j :: 0 <= i < j < |keys| ==> keys[i] != keys[j])
    && forall i, j :: 0 <= i < j < |keys| ==> AtMost(KeyFields(keys[i]), KeyFields(keys[j]))
  }

  lemma KeyFieldsLead(w: Work)
    ensures SortKey(w)[..3] == KeyFields(KeyOf(w))
  {}

  lemma GroupKeyAscends(ws: seq<Work>, i: nat, j: nat)
    requires Sorted(ws) && i <= j < |ws|
    ensures AtMost(KeyFields(KeyOf(ws[i])), KeyFields(KeyOf(ws[j])))
  {
    hide AtMost, SortKey, KeyFields, KeyOf;
    KeyFieldsLead(ws[i]);
    KeyFieldsLead(ws[j]);
    LeadingAtMost(SortKey(ws[i]), SortKey(ws[j]), 3);
  }

  /** What has been reported when the items before a boundary are done. */
  ghost predicate Reported(
      ws: seq<Work>, bound: nat, keys: seq<CollisionKey>, ds: seq<Diagnostic>, capacity: nat)
    requires bound <= |ws|
  {
    && KeysAscend(keys)
    && (forall key :: key in keys <==> key in CollisionKeys(ws) && exists i :: 0 <= i < bound && KeyOf(ws[i]) == key)
    && |ds| == (if |keys| < capacity then |keys| else capacity)
    && (forall i :: 0 <= i < |ds| ==> Described(ds[i], ws, keys[i]))
  }

  lemma SkipGroup(ws: seq<Work>, from: nat, end: nat, keys: seq<CollisionKey>, ds: seq<Diagnostic>, capacity: nat)
    requires Group(ws, from, end) && Reported(ws, from, keys, ds, capacity)
    requires |Spellings(ws, KeyOf(ws[from]))| < 2
    ensures Reported(ws, end, keys, ds, capacity)
  {
    hide Described, Spellings;
    forall key | key in CollisionKeys(ws) && exists i :: 0 <= i < end && KeyOf(ws[i]) == key
      ensures exists i :: 0 <= i < from && KeyOf(ws[i]) == key
    {
      var i :| 0 <= i < end && KeyOf(ws[i]) == key;
    }
  }

  lemma AddGroup(ws: seq<Work>, from: nat, end: nat, keys: seq<CollisionKey>, ds: seq<Diagnostic>, ds': seq<Diagnostic>, capacity: nat)
    requires Sorted(ws) && Group(ws, from, end) && Reported(ws, from, keys, ds, capacity)
    requires |Spellings(ws, KeyOf(ws[from]))| >= 2
    requires if |keys| < capacity then |ds'| == |ds| + 1 && ds'[..|ds|] == ds && Described(ds'[|ds|], ws, KeyOf(ws[from])) else ds' == ds
    ensures Reported(ws, end, keys + [KeyOf(ws[from])], ds', capacity)
  {
    hide Described, Spellings, Sorted, KeyFields, AtMost;
    var key := KeyOf(ws[from]);
    forall i | 0 <= i < |keys| ensures AtMost(KeyFields(keys[i]), KeyFields(key)) {
      assert keys[i] in keys;
      var k :| 0 <= k < from && KeyOf(ws[k]) == keys[i];
      GroupKeyAscends(ws, k, from);
    }
    assert ws[from] in ws && key in CollisionKeys(ws);
    assert key !in keys;
    forall i | 0 <= i < |ds'| ensures Described(ds'[i], ws, (keys + [key])[i]) {
      if i < |ds| { assert ds'[..|ds|][i] == ds[i]; }
    }
    forall k ensures k in keys + [key] <==> k in CollisionKeys(ws) && exists i :: 0 <= i < end && KeyOf(ws[i]) == k {
      if k in CollisionKeys(ws) && exists i :: 0 <= i < end && KeyOf(ws[i]) == k {
        var i :| 0 <= i < end && KeyOf(ws[i]) == k;
        if i < from { assert k in keys; }
      }
      if k in keys {
        var i :| 0 <= i < from && KeyOf(ws[i]) == k;
        assert i < end;
      }
    }
  }

  /** Walks the groups of the sorted items in order. */
  method WalkGroups(ws: seq<Work>, capacity: nat) returns (count: nat, ds: seq<Diagnostic>, ghost keys: seq<CollisionKey>)
    requires Sorted(ws)
    ensures count == |keys| && Reported(ws, |ws|, keys, ds, capacity)
  {
    count, ds, keys := 0, [], [];
    assert Reported(ws, 0, keys, ds, capacity);
    hide Reported, Sorted, Spellings, KeyOf, Described, KeysAscend, AtMost, SortKey;
    var index := 0;
    while index < |ws|
      invariant 0 <= index <= |ws| && count == |keys| && Reported(ws, index, keys, ds, capacity)
      invariant 0 < index < |ws| ==> KeyOf(ws[index - 1]) != KeyOf(ws[index])
    {
      var end, unique := FindGroup(ws, index);
      if unique < 2 {
        SkipGroup(ws, index, end, keys, ds, capacity);
      } else {
        var d := Report(ws, index, end);
        ReportedLength(ws, index, keys, ds, capacity);
        ghost var before := ds;
        if count < capacity { ds := ds + [d]; }
        AddGroup(ws, index, end, keys, before, ds, capacity);
        keys := keys + [KeyOf(ws[index])];
        count := count + 1;
      }
      assert KeyOf(ws[end - 1]) == KeyOf(ws[index]);
      index := end;
    }
  }

  lemma ReportedLength(ws: seq<Work>, bound: nat, keys: seq<CollisionKey>, ds: seq<Diagnostic>, capacity: nat)
    requires bound <= |ws| && Reported(ws, bound, keys, ds, capacity)
    ensures |ds| == if |keys| < capacity then |keys| else capacity
  {
  }

  lemma {:induction false} DistinctCount(keys: seq<CollisionKey>, all: set<CollisionKey>)
    requires forall i, j :: 0 <= i < j < |keys| ==> keys[i] != keys[j]
    requires forall key :: key in keys <==> key in all
    ensures |keys| == |all|
  {
    if keys == [] {
      assert all == {};
    } else {
      var last := keys[|keys| - 1];
      var front := keys[..|keys| - 1];
      assert keys == front + [last];
      DistinctCount(front, all - {last});
    }
  }

  /** Which items there are decides the keys and the reports, not their order. */
  lemma SameItems(ws: seq<Work>, ws': seq<Work>)
    requires multiset(ws) == multiset(ws')
    ensures CollisionKeys(ws) == CollisionKeys(ws')
    ensures forall d, key :: Described(d, ws, key) ==> Described(d, ws', key)
  {
    assert forall w :: w in ws <==> w in multiset(ws);
    assert forall w :: w in ws' <==> w in multiset(ws');
    forall key ensures Spellings(ws, key) == Spellings(ws', key) {}
    hide Outranks, Spellings, KeyOf, AtMost, SortKey, RankKey, RelatedSorted;
    forall d, key | Described(d, ws, key) ensures Described(d, ws', key) {
      var primary, others :| Describes(d, ws, key, primary, others);
      SameReport(ws, ws', d, key, primary, others);
    }
  }

  lemma SameReport(ws: seq<Work>, ws': seq<Work>, d: Diagnostic, key: CollisionKey, primary: Work, others: seq<Work>)
    requires (forall w :: w in ws <==> w in ws') && Spellings(ws, key) == Spellings(ws', key)
    requires Describes(d, ws, key, primary, others)
    ensures Describes(d, ws', key, primary, others)
  {
    hide Outranks, Spellings, KeyOf, AtMost, SortKey, RankKey, RelatedSorted, DistinctSpellings, SpellingsOf;
    forall w | w in others ensures StandsFor(ws', key, w) {
      assert StandsFor(ws, key, w);
    }
  }

  /** Every collision key once, in order, and a report for each of the first `capacity`. */
  ghost predicate Complete(ws: seq<Work>, capacity: nat, keys: seq<CollisionKey>, ds: seq<Diagnostic>) {
    && KeysAscend(keys) && (forall key :: key in keys <==> key in CollisionKeys(ws))
    && |ds| == (if |keys| < capacity then |keys| else capacity)
    && forall i :: 0 <= i < |ds| ==> Described(ds[i], ws, keys[i])
  }

  /**
   The whole check. The count is the number of keys under which two different
   spellings are visible, even beyond the capacity, and each report describes
   its own key.
   */
  method Check(bindings: seq<Binding>, skeletonOf: Text -> Option<Text>, capacity: nat)
    returns (status: Status, count: nat, ds: seq<Diagnostic>, ghost keys: seq<CollisionKey>)
    ensures status == LimitExhausted <==> |bindings| > BINDING_LIMIT
    ensures |bindings| <= BINDING_LIMIT && InputStatus(bindings, skeletonOf) != Ok ==>
      status == InputStatus(bindings, skeletonOf) && count == 0 && ds == []
    ensures |bindings| <= BINDING_LIMIT && InputStatus(bindings, skeletonOf) == Ok ==>
      && count == |CollisionKeys(Prepared(bindings, skeletonOf))|
      && status == (if count == 0 then Ok else if count > capacity then OutputTooSmall else Collision)
      && Complete(Prepared(bindings, skeletonOf), capacity, keys, ds) && |keys| == count
  {
    hide CollisionKeys, Described, Prepared, Sorted;
    count, ds, keys := 0, [], [];
    if |bindings| > BINDING_LIMIT { return LimitExhausted, 0, [], []; }
    var ws;
    status, ws := Prepare(bindings, skeletonOf);
    StatusCases(bindings, skeletonOf);
    if status != Ok { return; }
    var sorted := Sort(ws);
    count, ds, keys := WalkGroups(sorted, capacity);
    SameItems(sorted, ws);
    AllReported(sorted, keys, ds, capacity);
    status := if count == 0 then Ok else if count > capacity then OutputTooSmall else Collision;
  }

  lemma {:induction false} StatusCases(bindings: seq<Binding>, skeletonOf: Text -> Option<Text>)
    ensures InputStatus(bindings, skeletonOf) in {Ok, InvalidInput, ResourceFailure}
  {
    if bindings != [] { StatusCases(bindings[..|bindings| - 1], skeletonOf); }
  }

  lemma AllReported(ws: seq<Work>, keys: seq<CollisionKey>, ds: seq<Diagnostic>, capacity: nat)
    requires Reported(ws, |ws|, keys, ds, capacity)
    ensures |keys| == |CollisionKeys(ws)| && (forall key :: key in keys <==> key in CollisionKeys(ws))
    ensures KeysAscend(keys)
  {
    hide Described, Spellings;
    forall key | key in CollisionKeys(ws) ensures exists i :: 0 <= i < |ws| && KeyOf(ws[i]) == key {
      var w :| w in ws && KeyOf(w) == key;
      var i :| 0 <= i < |ws| && ws[i] == w;
    }
    DistinctCount(keys, CollisionKeys(ws));
  }
}
