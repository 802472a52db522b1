/** The variables of a Stage 1 scope: what searching the scope's text for one gives. */
module Stage1Variables {
  import opened Wrappers
  import opened Stage1Scanning
  import opened Stage1Typing
  import opened Stage1Agreement
  import opened Stage1Scope

  /** An entry's text as a variable's search spells it. */
  function Marker(name: string, body: string): string {
    "|" + (name + (":" + (body + "|")))
  }

  lemma MarkerIsSearched(name: string, kind: Kind)
    ensures "|" + name + ":" + KindText(kind) + "|" == Marker(name, KindText(kind))
    ensures "|" + name + ":" + KindText(kind) + "!|" == Marker(name, KindText(kind) + "!")
  {
    hide KindText;
  }

  // ----- an entry is found -----

  lemma {:induction false} VariableOccurs(items: seq<Item>, item: Item)
    requires item in items && item.Variable?
    ensures Occurs(Marker(item.name, Body(item)), ScopeText(items))
  {
    hide *;
    if item == items[0] {
      FirstVariable(items);
    } else {
      assert item in items[1..];
      VariableOccurs(items[1..], item);
      var front := ScopeOpens(items);
      OccursLater(Marker(item.name, Body(item)), front, ScopeText(items[1..]));
    }
  }

  lemma FirstVariable(items: seq<Item>)
    requires items != [] && items[0].Variable?
    ensures Occurs(Marker(items[0].name, Body(items[0])), ScopeText(items))
  {
    hide Occurs, Body;
    StartsOccur(Marker(items[0].name, Body(items[0])), ItemsText(items[1..]));
    Regroup("|", ItemText(items[0]), ItemsText(items[1..]));
  }

  // ----- what is found is an entry -----

  /** A bar stands at the end of an entry and nowhere else. */
  lemma BarEnds(item: Item, q: nat)
    requires ValidItem(item) && q < |ItemText(item)| && ItemText(item)[q] == '|'
    ensures q == |ItemText(item)| - 1
  {
    hide Body, Head, ValidItem;
    HeadIsPlain(item);
    BodyIsPlain(item);
  }

  lemma {:induction false} UpToBar(a: string, b: string, rest: string)
    requires '|' !in a && '|' !in b && a + "|" <= b + ("|" + rest)
    ensures a == b
  {
    assert (a + "|")[0] == (b + ("|" + rest))[0];
    if a != [] && b != [] {
      assert (a + "|")[1..] == a[1..] + "|" && (b + ("|" + rest))[1..] == b[1..] + ("|" + rest);
      UpToBar(a[1..], b[1..], rest);
      assert a == [a[0]] + a[1..] && b == [b[0]] + b[1..];
    }
  }

  /** A variable's marker at the start of an entry is that entry. */
  lemma MarkerIsEntry(item: Item, name: string, body: string, rest: string)
    requires ValidItem(item) && ValidName(name) && '|' !in body
    requires name + (":" + (body + "|")) <= ItemText(item) + rest
    ensures item.Variable? && item.name == name && Body(item) == body
  {
    var needle := name + (":" + (body + "|"));
    assert needle[0] == (ItemText(item) + rest)[0];
    NameIsPlain(name, ':');
    HeadIsPlain(item);
    BodyIsPlain(item);
    if !item.Opened? {
      EntrySplits(item, rest);
      HeadIs(name, Head(item), body + "|", Body(item) + ("|" + rest));
      BodyIs(name, body + "|", Body(item) + ("|" + rest));
      UpToBar(body, Body(item), rest);
    }
  }

  lemma EntrySplits(item: Item, rest: string)
    requires !item.Opened?
    ensures ItemText(item) + rest == Head(item) + (":" + (Body(item) + ("|" + rest)))
  {
    hide Head, Body;
  }

  lemma HeadIs(name: string, head: string, a: string, b: string)
    requires ':' !in name && ':' !in head && name + (":" + a) <= head + (":" + b)
    ensures name == head
  {
    assert (name + ":") + a == name + (":" + a);
    NameUpToColon(name, head, b);
  }

  lemma BodyIs(name: string, a: string, b: string)
    requires name + (":" + a) <= name + (":" + b)
    ensures a <= b
  {
    assert (name + (":" + a))[|name| + 1..] == a && (name + (":" + b))[|name| + 1..] == b;
  }

  lemma {:induction false} MarkerAt(items: seq<Item>, name: string, body: string, p: nat) returns (item: Item)
    requires ValidItems(items) && ValidName(name) && '|' !in body
    requires p <= |ScopeText(items)| && Marker(name, body) <= ScopeText(items)[p..]
    ensures item in items && item.Variable? && item.name == name && Body(item) == body
  {
    hide Body, ItemText, ValidName, ValidItem;
    var scope := ScopeText(items);
    if p == 0 {
      item := items[0];
      assert scope[0..][1..] == ItemText(item) + ItemsText(items[1..]);
      assert Marker(name, body)[1..] == name + (":" + (body + "|"));
      MarkerIsEntry(item, name, body, ItemsText(items[1..]));
    } else {
      var first := |ItemText(items[0])|;
      assert scope[p] == Marker(name, body)[0] == '|';
      if p - 1 < first { BarEnds(items[0], p - 1); }
      ScopeBehind(items);
      assert scope[first..][p - first..] == scope[p..];
      item := MarkerAt(items[1..], name, body, p - first);
    }
  }

  /** Behind the first entry the scope goes on as the scope of the others. */
  lemma ScopeBehind(items: seq<Item>)
    requires items != []
    ensures ScopeText(items)[|ItemText(items[0])|..] == ScopeText(items[1..])
  {
    var front := EndsInBar(items[0]);
    hide ItemText;
    assert ScopeText(items) == ("|" + front) + ("|" + ItemsText(items[1..]));
  }

  // ----- a variable's kind -----

  /** The entry names the variable and gives it that kind. */
  predicate Gives(item: Item, name: string, kind: Kind) {
    item.Variable? && item.name == name && item.kind == kind
  }

  lemma SameKind(a: Kind, b: Kind, changes: bool, changes': bool)
    requires KindText(a) + (if changes then "!" else "") == KindText(b) + (if changes' then "!" else "")
    ensures a == b
  {
    var s, t := KindText(a) + (if changes then "!" else ""), KindText(b) + (if changes' then "!" else "");
    assert s[0] == t[0] && s[|s| - 1] == t[|t| - 1];
  }

  /** The search for a variable's kind succeeds exactly when an entry gives it. */
  lemma HoldsIsGiven(items: seq<Item>, name: string, kind: Kind)
    requires ValidItems(items) && ValidName(name)
    ensures Holds(ScopeText(items), name, kind) <==> exists item :: item in items && Gives(item, name, kind)
  {
    hide Occurs, KindText, Find, ScopeText, Marker, ValidName;
    MarkerIsSearched(name, kind);
    if Holds(ScopeText(items), name, kind) {
      var changes := !Occurs(Marker(name, KindText(kind)), ScopeText(items));
      var body := KindText(kind) + (if changes then "!" else "");
      assert KindText(kind) + "" == KindText(kind);
      KindHasNoMark(kind);
      var p := Find(ScopeText(items), Marker(name, body));
      Prefix(ScopeText(items), Marker(name, body), p);
      var item := MarkerAt(items, name, body, p);
      SameKind(item.kind, kind, item.changes, changes);
      assert Gives(item, name, kind);
    }
    if item :| item in items && Gives(item, name, kind) {
      VariableOccurs(items, item);
      assert KindText(kind) + "" == KindText(kind);
    }
  }

  lemma Prefix(text: string, needle: string, p: nat)
    requires p + |needle| <= |text| && text[p..p + |needle|] == needle
    ensures needle <= text[p..]
  {
    assert text[p..][..|needle|] == needle;
  }

  predicate OneKind(items: seq<Item>) {
    forall a, b :: a in items && b in items && a.Variable? && b.Variable? && a.name == b.name ==> a.kind == b.kind
  }

  /** A variable has the kind its entry gives, and a name no entry gives has none. */
  lemma VariableIsFound(items: seq<Item>, name: string)
    requires ValidItems(items) && ValidName(name) && OneKind(items)
    ensures forall kind :: kind != VoidKind ==>
      (BoundOf(items).kindOf(name) == Some(kind) <==> exists item :: item in items && Gives(item, name, kind))
    ensures BoundOf(items).kindOf(name) != Some(VoidKind)
  {
    hide Holds, ValidName, ScopeText;
    forall kind ensures Holds(ScopeText(items), name, kind) <==> exists item :: item in items && Gives(item, name, kind) {
      HoldsIsGiven(items, name, kind);
    }
  }
}
