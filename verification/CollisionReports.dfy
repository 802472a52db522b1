/** The collision reports do not depend on the order in which the bindings are given. */
module CollisionReports {
  import opened ByteOrder
  import opened Wrappers
  import opened Confusables

  /** What two items share when they differ at most in their places in the input. */
  predicate Alike(w: Work, o: Work) {
    w.binding == o.binding && w.skeleton == o.skeleton
  }

  /** Every item of ws has an equal in ws'. */
  ghost predicate Within(ws: seq<Work>, ws': seq<Work>) {
    forall w :: w in ws ==> exists o :: o in ws' && Alike(w, o)
  }

  // ----- what the items alone decide -----

  lemma SpellingsWithin(ws: seq<Work>, ws': seq<Work>, key: CollisionKey)
    requires Within(ws, ws')
    ensures Spellings(ws, key) <= Spellings(ws', key)
  {
    forall s | s in Spellings(ws, key) ensures s in Spellings(ws', key) {
      var w :| w in ws && KeyOf(w) == key && w.binding.spelling == s;
      var o :| o in ws' && Alike(w, o);
      assert KeyOf(o) == key;
    }
  }

  lemma KeyWithin(ws: seq<Work>, ws': seq<Work>, w: Work)
    requires Within(ws, ws') && Within(ws', ws) && w in ws && |Spellings(ws, KeyOf(w))| >= 2
    ensures KeyOf(w) in CollisionKeys(ws')
  {
    var o :| o in ws' && Alike(w, o);
    AlikeKeys(w, o);
    SpellingsWithin(ws, ws', KeyOf(w));
    SpellingsWithin(ws', ws, KeyOf(w));
    hide Spellings, KeyOf, Within;
    assert Spellings(ws', KeyOf(o)) == Spellings(ws, KeyOf(w));
  }

  lemma KeysWithin(ws: seq<Work>, ws': seq<Work>)
    requires Within(ws, ws') && Within(ws', ws)
    ensures CollisionKeys(ws) <= CollisionKeys(ws')
  {
    hide Spellings, KeyOf, Within;
    forall key | key in CollisionKeys(ws) ensures key in CollisionKeys(ws') {
      var w :| w in ws && KeyOf(w) == key && |Spellings(ws, KeyOf(w))| >= 2;
      KeyWithin(ws, ws', w);
    }
  }

  /** The rank and the sorted place of a binding leave nothing of it open. */
  lemma KeysDetermineBinding(a: Work, b: Work)
    requires RankKey(a.binding) == RankKey(b.binding) && SortKey(a) == SortKey(b)
    ensures a.binding == b.binding
  {
    assert RankKey(a.binding)[1] == RankKey(b.binding)[1];
    SortKeyFields(a, b);
  }

  /** The sorted place alone leaves the kind of site open. */
  lemma SortKeyFields(a: Work, b: Work)
    requires SortKey(a) == SortKey(b)
    ensures a.binding.(siteKind := 0) == b.binding.(siteKind := 0) && RelatedKey(a) == RelatedKey(b)
  {
    var x, y := SortKey(a), SortKey(b);
    assert x[0] == y[0] && x[1] == y[1] && x[3] == y[3] && x[4] == y[4];
    assert x[5] == y[5] && x[6] == y[6] && x[7] == y[7] && x[8] == y[8];
  }

  lemma AlikeKeys(w: Work, o: Work)
    requires Alike(w, o)
    ensures KeyOf(w) == KeyOf(o) && SortKey(w) == SortKey(o) && RelatedKey(w) == RelatedKey(o)
  {}

  // ----- the primary binding -----

  lemma RankedAtMost(ws: seq<Work>, ws': seq<Work>, key: CollisionKey, p: Work, p': Work)
    requires Within(ws', ws) && Primary(ws, key, p) && Primary(ws', key, p')
    ensures AtMost(RankKey(p'.binding), RankKey(p.binding))
    ensures RankKey(p.binding) == RankKey(p'.binding) ==> AtMost(SortKey(p), SortKey(p'))
  {
    hide AtMost, SortKey, RankKey, Outranks;
    var o :| o in ws && Alike(p', o);
    AlikeKeys(p', o);
    OutranksIsOrder(o.binding, p.binding);
  }

  /** One binding is primary, whatever the order of the input. */
  lemma PrimaryIsUnique(ws: seq<Work>, ws': seq<Work>, key: CollisionKey, p: Work, p': Work)
    requires Within(ws, ws') && Within(ws', ws) && Primary(ws, key, p) && Primary(ws', key, p')
    ensures p.binding == p'.binding
  {
    hide AtMost, SortKey, RankKey, Primary;
    RankedAtMost(ws, ws', key, p, p');
    RankedAtMost(ws', ws, key, p', p);
    AtMostTotal(RankKey(p.binding), RankKey(p'.binding));
    AtMostTotal(SortKey(p), SortKey(p'));
    KeysDetermineBinding(p, p');
  }

  // ----- the bindings that stand for a spelling -----

  lemma StandsAtMost(ws: seq<Work>, ws': seq<Work>, key: CollisionKey, w: Work, w': Work)
    requires Within(ws', ws) && StandsFor(ws, key, w) && StandsFor(ws', key, w')
    requires w.binding.spelling == w'.binding.spelling
    ensures AtMost(SortKey(w), SortKey(w'))
  {
    hide AtMost, SortKey;
    var o :| o in ws && Alike(w', o);
    AlikeKeys(w', o);
  }

  lemma StandInIsUnique(ws: seq<Work>, ws': seq<Work>, key: CollisionKey, w: Work, w': Work)
    requires Within(ws, ws') && Within(ws', ws) && StandsFor(ws, key, w) && StandsFor(ws', key, w')
    requires w.binding.spelling == w'.binding.spelling
    ensures SortKey(w) == SortKey(w')
  {
    hide AtMost, SortKey, StandsFor;
    StandsAtMost(ws, ws', key, w, w');
    StandsAtMost(ws', ws, key, w', w);
    AtMostTotal(SortKey(w), SortKey(w'));
  }

  function RelatedKeys(rs: seq<Work>): seq<Key> {
    seq(|rs|, i requires 0 <= i < |rs| => RelatedKey(rs[i]))
  }

  lemma SpellingOfKey(w: Work, o: Work)
    requires RelatedKey(w) == RelatedKey(o)
    ensures w.binding.spelling == o.binding.spelling
  {
    assert RelatedKey(w)[3] == RelatedKey(o)[3];
  }

  /** Keys without repetition are counted once each. */
  lemma {:induction false} CountedOnce(keys: seq<Key>, k: Key)
    requires forall i, j :: 0 <= i < j < |keys| ==> keys[i] != keys[j]
    ensures multiset(keys)[k] == if k in keys then 1 else 0
  {
    if keys != [] {
      CountedOnce(keys[1..], k);
      assert keys == [keys[0]] + keys[1..];
    }
  }

  lemma SameOnce(a: seq<Key>, b: seq<Key>)
    requires forall i, j :: 0 <= i < j < |a| ==> a[i] != a[j]
    requires forall i, j :: 0 <= i < j < |b| ==> b[i] != b[j]
    requires forall k :: k in a <==> k in b
    ensures multiset(a) == multiset(b)
  {
    forall k ensures multiset(a)[k] == multiset(b)[k] {
      CountedOnce(a, k);
      CountedOnce(b, k);
    }
  }

  lemma RelatedWithin(ws: seq<Work>, ws': seq<Work>, key: CollisionKey, spellings: set<Text>, rs: seq<Work>, rs': seq<Work>, k: Key)
    requires Within(ws, ws') && Within(ws', ws)
    requires Represent(rs, ws, key, spellings) && Represent(rs', ws', key, spellings)
    ensures k in RelatedKeys(rs) ==> k in RelatedKeys(rs')
  {
    hide StandsFor, SortKey, RelatedKey, Within;
    if k in RelatedKeys(rs) {
      var i :| 0 <= i < |rs| && RelatedKeys(rs)[i] == k;
      assert rs[i] in rs && rs[i].binding.spelling in SpellingsOf(rs');
      var w :| w in rs' && w.binding.spelling == rs[i].binding.spelling;
      StandInIsUnique(ws, ws', key, rs[i], w);
      SortKeyFields(rs[i], w);
      var j :| 0 <= j < |rs'| && rs'[j] == w;
      assert RelatedKeys(rs')[j] == k;
    }
  }

  lemma RelatedOnce(rs: seq<Work>)
    requires DistinctSpellings(rs) && RelatedSorted(rs)
    ensures forall i, j :: 0 <= i < j < |rs| ==> RelatedKeys(rs)[i] != RelatedKeys(rs)[j]
    ensures Ascending(RelatedKeys(rs))
  {
    hide RelatedKey, AtMost;
    forall i, j | 0 <= i < j < |rs| ensures RelatedKeys(rs)[i] != RelatedKeys(rs)[j] {
      if RelatedKey(rs[i]) == RelatedKey(rs[j]) { SpellingOfKey(rs[i], rs[j]); }
    }
  }

  /** The bindings that stand for the other spellings are the same, in the same order, up to the kind of site. */
  lemma OthersAreUnique(ws: seq<Work>, ws': seq<Work>, key: CollisionKey, spellings: set<Text>, rs: seq<Work>, rs': seq<Work>)
    requires Within(ws, ws') && Within(ws', ws)
    requires Represent(rs, ws, key, spellings) && RelatedSorted(rs)
    requires Represent(rs', ws', key, spellings) && RelatedSorted(rs')
    ensures |rs| == |rs'| && forall i :: 0 <= i < |rs| ==> SortKey(rs[i]) == SortKey(rs'[i])
  {
    hide StandsFor, SortKey, RelatedKey, Within, RelatedSorted, Ascending;
    forall k ensures k in RelatedKeys(rs) <==> k in RelatedKeys(rs') {
      RelatedWithin(ws, ws', key, spellings, rs, rs', k);
      RelatedWithin(ws', ws, key, spellings, rs', rs, k);
    }
    RelatedOnce(rs);
    RelatedOnce(rs');
    SameOnce(RelatedKeys(rs), RelatedKeys(rs'));
    AscendingIsUnique(RelatedKeys(rs), RelatedKeys(rs'));
    forall i | 0 <= i < |rs| ensures SortKey(rs[i]) == SortKey(rs'[i]) {
      assert RelatedKeys(rs)[i] == RelatedKeys(rs')[i];
      SpellingOfKey(rs[i], rs'[i]);
      assert rs[i] in rs && rs'[i] in rs';
      StandInIsUnique(ws, ws', key, rs[i], rs'[i]);
    }
  }

  // ----- whole reports -----

  /** d over the bindings a says what d' says over b. */
  ghost predicate SaysTheSame(a: seq<Binding>, d: Diagnostic, b: seq<Binding>, d': Diagnostic) {
    && d.primary < |a| && d'.primary < |b| && a[d.primary] == b[d'.primary]
    && d.omitted == d'.omitted && |d.related| == |d'.related|
    && forall i :: 0 <= i < |d.related| ==>
        && d.related[i] < |a| && d'.related[i] < |b|
        && a[d.related[i]].(siteKind := 0) == b[d'.related[i]].(siteKind := 0)
  }

  lemma PreparedPlace(a: seq<Binding>, skeletonOf: Text -> Option<Text>, w: Work)
    requires w in Prepared(a, skeletonOf)
    ensures w.input < |a| && a[w.input] == w.binding
  {}

  lemma PreparedWithin(a: seq<Binding>, b: seq<Binding>, skeletonOf: Text -> Option<Text>)
    requires multiset(a) == multiset(b)
    ensures Within(Prepared(a, skeletonOf), Prepared(b, skeletonOf))
  {
    var ws, ws' := Prepared(a, skeletonOf), Prepared(b, skeletonOf);
    forall w | w in ws ensures exists o :: o in ws' && Alike(w, o) {
      var i :| 0 <= i < |ws| && ws[i] == w;
      assert a[i] in multiset(b);
      var j :| 0 <= j < |b| && b[j] == a[i];
      assert ws'[j] in ws' && Alike(w, ws'[j]);
    }
  }

  lemma ReportIsUnique(a: seq<Binding>, b: seq<Binding>, skeletonOf: Text -> Option<Text>, key: CollisionKey, d: Diagnostic, d': Diagnostic)
    requires multiset(a) == multiset(b)
    requires Described(d, Prepared(a, skeletonOf), key) && Described(d', Prepared(b, skeletonOf), key)
    ensures SaysTheSame(a, d, b, d')
  {
    hide Describes, Spellings, Prepared, Within, SaysTheSame;
    PreparedWithin(a, b, skeletonOf);
    PreparedWithin(b, a, skeletonOf);
    var p, others :| Describes(d, Prepared(a, skeletonOf), key, p, others);
    var p', others' :| Describes(d', Prepared(b, skeletonOf), key, p', others');
    DescribedAlike(Prepared(a, skeletonOf), Prepared(b, skeletonOf), key, d, d', p, others, p', others');
    DescribedPlaces(a, skeletonOf, key, d, p, others);
    DescribedPlaces(b, skeletonOf, key, d', p', others');
    ReportsMatch(a, b, d, d', p, others, p', others');
  }

  lemma DescribedAlike(ws: seq<Work>, ws': seq<Work>, key: CollisionKey, d: Diagnostic, d': Diagnostic,
      p: Work, others: seq<Work>, p': Work, others': seq<Work>)
    requires Within(ws, ws') && Within(ws', ws)
    requires Describes(d, ws, key, p, others) && Describes(d', ws', key, p', others')
    ensures p.binding == p'.binding && |others| == |others'|
    ensures forall i :: 0 <= i < |others| ==> SortKey(others[i]) == SortKey(others'[i])
  {
    hide Primary, RelatedSorted, Represent, Spellings, KeyOf, SortKey, Within;
    SpellingsWithin(ws, ws', key);
    SpellingsWithin(ws', ws, key);
    PrimaryIsUnique(ws, ws', key, p, p');
    assert Spellings(ws, key) - {p.binding.spelling} == Spellings(ws', key) - {p'.binding.spelling};
    OthersAreUnique(ws, ws', key, Spellings(ws, key) - {p.binding.spelling}, others, others');
  }

  /** A report's numbers are the places of the bindings it is about. */
  lemma DescribedPlaces(a: seq<Binding>, skeletonOf: Text -> Option<Text>, key: CollisionKey, d: Diagnostic, p: Work, others: seq<Work>)
    requires Describes(d, Prepared(a, skeletonOf), key, p, others)
    ensures d.primary < |a| && a[d.primary] == p.binding
    ensures |d.related| == (if |others| < RELATED_LIMIT then |others| else RELATED_LIMIT) && d.omitted == |others| - |d.related|
    ensures forall i :: 0 <= i < |d.related| ==> d.related[i] < |a| && a[d.related[i]] == others[i].binding
  {
    hide Primary, RelatedSorted, Spellings, KeyOf, StandsFor, Prepared;
    PrimaryPlace(a, skeletonOf, key, p);
    forall i | 0 <= i < |d.related| ensures d.related[i] < |a| && a[d.related[i]] == others[i].binding {
      assert others[i] in others;
      StandInPlace(a, skeletonOf, key, others[i]);
    }
  }

  lemma ReportsMatch(a: seq<Binding>, b: seq<Binding>, d: Diagnostic, d': Diagnostic, p: Work, others: seq<Work>, p': Work, others': seq<Work>)
    requires p.binding == p'.binding && |others| == |others'| && |d.related| == |d'.related| <= |others|
    requires d.primary < |a| && a[d.primary] == p.binding && d'.primary < |b| && b[d'.primary] == p'.binding
    requires d.omitted == d'.omitted
    requires forall i :: 0 <= i < |d.related| ==> d.related[i] < |a| && a[d.related[i]] == others[i].binding
    requires forall i :: 0 <= i < |d'.related| ==> d'.related[i] < |b| && b[d'.related[i]] == others'[i].binding
    requires forall i :: 0 <= i < |others| ==> SortKey(others[i]) == SortKey(others'[i])
    ensures SaysTheSame(a, d, b, d')
  {
    hide SortKey;
    forall i | 0 <= i < |d.related| ensures others[i].binding.(siteKind := 0) == others'[i].binding.(siteKind := 0) {
      SortKeyFields(others[i], others'[i]);
    }
  }

  lemma PrimaryPlace(a: seq<Binding>, skeletonOf: Text -> Option<Text>, key: CollisionKey, w: Work)
    requires Primary(Prepared(a, skeletonOf), key, w)
    ensures w.input < |a| && a[w.input] == w.binding
  {
    PreparedPlace(a, skeletonOf, w);
  }

  lemma StandInPlace(a: seq<Binding>, skeletonOf: Text -> Option<Text>, key: CollisionKey, w: Work)
    requires StandsFor(Prepared(a, skeletonOf), key, w)
    ensures w.input < |a| && a[w.input] == w.binding
  {
    PreparedPlace(a, skeletonOf, w);
  }

  // ----- the order of the keys -----

  function FieldsOf(keys: seq<CollisionKey>): seq<Key> {
    seq(|keys|, i requires 0 <= i < |keys| => KeyFields(keys[i]))
  }

  lemma FieldsDetermineKey(a: CollisionKey, b: CollisionKey)
    requires KeyFields(a) == KeyFields(b)
    ensures a == b
  {
    var x, y := KeyFields(a), KeyFields(b);
    assert x[0] == y[0] && x[1] == y[1] && x[2] == y[2];
  }

  lemma FieldsOnce(keys: seq<CollisionKey>)
    requires KeysAscend(keys)
    ensures forall i, j :: 0 <= i < j < |keys| ==> FieldsOf(keys)[i] != FieldsOf(keys)[j]
    ensures Ascending(FieldsOf(keys))
  {
    hide KeyFields, AtMost;
    forall i, j | 0 <= i < j < |keys| ensures FieldsOf(keys)[i] != FieldsOf(keys)[j] {
      if KeyFields(keys[i]) == KeyFields(keys[j]) { FieldsDetermineKey(keys[i], keys[j]); }
    }
    forall i | 0 <= i < |keys| ensures AtMost(FieldsOf(keys)[i], FieldsOf(keys)[i]) {
      AtMostTotal(KeyFields(keys[i]), KeyFields(keys[i]));
    }
  }

  lemma KeysAreUnique(keys: seq<CollisionKey>, keys': seq<CollisionKey>)
    requires KeysAscend(keys) && KeysAscend(keys') && forall key :: key in keys <==> key in keys'
    ensures keys == keys'
  {
    hide KeyFields, KeysAscend;
    FieldsOnce(keys);
    FieldsOnce(keys');
    forall k ensures k in FieldsOf(keys) <==> k in FieldsOf(keys') {
      FieldsWithin(keys, keys', k);
      FieldsWithin(keys', keys, k);
    }
    SameOnce(FieldsOf(keys), FieldsOf(keys'));
    AscendingIsUnique(FieldsOf(keys), FieldsOf(keys'));
    forall i | 0 <= i < |keys| ensures |keys| == |keys'| && keys[i] == keys'[i] {
      assert FieldsOf(keys)[i] == FieldsOf(keys')[i];
      FieldsDetermineKey(keys[i], keys'[i]);
    }
    assert |FieldsOf(keys)| == |FieldsOf(keys')|;
  }

  lemma FieldsWithin(keys: seq<CollisionKey>, keys': seq<CollisionKey>, k: Key)
    requires forall key :: key in keys ==> key in keys'
    ensures k in FieldsOf(keys) ==> k in FieldsOf(keys')
  {
    hide KeyFields;
    if k in FieldsOf(keys) {
      var i :| 0 <= i < |keys| && FieldsOf(keys)[i] == k;
      assert keys[i] in keys';
      var j :| 0 <= j < |keys'| && keys'[j] == keys[i];
      assert FieldsOf(keys')[j] == k;
    }
  }

  /** Whether the bindings are refused does not depend on their order, though the reason may. */
  lemma AcceptanceIsCanonical(a: seq<Binding>, b: seq<Binding>, skeletonOf: Text -> Option<Text>)
    requires multiset(a) == multiset(b)
    ensures InputStatus(a, skeletonOf) == Ok <==> InputStatus(b, skeletonOf) == Ok
  {
    AcceptedEach(a, skeletonOf);
    AcceptedEach(b, skeletonOf);
    assert forall x :: x in a <==> x in multiset(a);
    assert forall x :: x in b <==> x in multiset(b);
  }

  lemma {:induction false} AcceptedEach(a: seq<Binding>, skeletonOf: Text -> Option<Text>)
    ensures InputStatus(a, skeletonOf) == Ok <==> forall x :: x in a ==> ValidBinding(x) && skeletonOf(x.spelling).Some?
  {
    if a != [] {
      AcceptedEach(a[..|a| - 1], skeletonOf);
      assert a == a[..|a| - 1] + [a[|a| - 1]];
    }
  }

  /**
   However the bindings are ordered and however the sorts break ties, the
   reports are about the same keys in the same order, name the same primary
   bindings, omit as many, and name the same related bindings in the same order;
   only the kind of site of a related one is open, when bindings differ in
   nothing else.
   */
  lemma ReportsAreCanonical(
      a: seq<Binding>, b: seq<Binding>, skeletonOf: Text -> Option<Text>, capacity: nat,
      keys: seq<CollisionKey>, ds: seq<Diagnostic>, keys': seq<CollisionKey>, ds': seq<Diagnostic>)
    requires multiset(a) == multiset(b)
    requires Complete(Prepared(a, skeletonOf), capacity, keys, ds)
    requires Complete(Prepared(b, skeletonOf), capacity, keys', ds')
    ensures keys == keys' && |ds| == |ds'|
    ensures forall i :: 0 <= i < |ds| ==> SaysTheSame(a, ds[i], b, ds'[i])
  {
    hide Described, Prepared, CollisionKeys, KeysAscend, SaysTheSame, Within;
    PreparedWithin(a, b, skeletonOf);
    PreparedWithin(b, a, skeletonOf);
    KeysWithin(Prepared(a, skeletonOf), Prepared(b, skeletonOf));
    KeysWithin(Prepared(b, skeletonOf), Prepared(a, skeletonOf));
    KeysAreUnique(keys, keys');
    forall i | 0 <= i < |ds| ensures SaysTheSame(a, ds[i], b, ds'[i]) {
      ReportIsUnique(a, b, skeletonOf, keys[i], ds[i], ds'[i]);
    }
  }
}
