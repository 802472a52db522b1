/**
 The scope as Stage 1 keeps it, one text searched for every name: what a search
 finds is an entry's own text, and only names are found.
 */
module Stage1Scope {
  import opened Wrappers
  import opened Stage1Scanning
  import opened Stage1Typing
  import opened Stage1Agreement

  // ----- entries -----

  /** A declared function, a variable, or the mark of an opened block. */
  datatype Item =
    | Declared(name: string, result: Kind, parameters: seq<Kind>)
    | Variable(name: string, kind: Kind, changes: bool)
    | Opened

  predicate ValidItem(item: Item) {
    item.Opened? || ValidName(item.name)
  }

  predicate ValidItems(items: seq<Item>) {
    forall i :: 0 <= i < |items| ==> ValidItem(items[i])
  }

  function KindText(kind: Kind): string {
    match kind
    case IntKind => "Int"
    case BoolKind => "Bool"
    case TextKind => "Text"
    case ListKind => "List[Text]"
    case VoidKind => "Void"
  }

  function ParametersText(kinds: seq<Kind>): string {
    if kinds == [] then ""
    else
      var last := KindText(kinds[|kinds| - 1]);
      if |kinds| == 1 then last else ParametersText(kinds[..|kinds| - 1]) + "," + last
  }

  /** What an entry says behind its colon. */
  function Body(item: Item): string {
    match item
    case Declared(_, result, parameters) => KindText(result) + ";" + ParametersText(parameters)
    case Variable(_, kind, changes) => KindText(kind) + if changes then "!" else ""
    case Opened => ""
  }

  function Head(item: Item): string {
    match item
    case Declared(name, _, _) => "@" + name
    case Variable(name, _, _) => name
    case Opened => ""
  }

  function ItemText(item: Item): string {
    if item.Opened? then "{|" else Head(item) + (":" + (Body(item) + "|"))
  }

  function ItemsText(items: seq<Item>): string {
    if items == [] then "" else ItemText(items[0]) + ItemsText(items[1..])
  }

  function ScopeText(items: seq<Item>): string {
    "|" + ItemsText(items)
  }

  // ----- searches -----

  /** Where a text first holds another, or -1. */
  function Find(haystack: string, needle: string): (p: int)
    ensures -1 <= p && (p >= 0 ==> p + |needle| <= |haystack| && haystack[p..p + |needle|] == needle)
    ensures p >= 0 <==> Occurs(needle, haystack)
  {
    if needle <= haystack then 0
    else if haystack == [] then -1
    else
      var p := Find(haystack[1..], needle);
      if p < 0 then -1 else p + 1
  }

  /** The text between a function's colon and the next bar; empty when it is not found. */
  function SignatureText(scope: string, name: string): string {
    var marker := "|@" + name + ":";
    var start := Find(scope, marker);
    if start < 0 then ""
    else
      var tail := scope[start + |marker|..];
      var finish := Find(tail, "|");
      if finish < 0 then "" else tail[..finish]
  }

  function KindNamed(text: string): Option<Kind> {
    if text == "Int" then Some(IntKind)
    else if text == "Bool" then Some(BoolKind)
    else if text == "Text" then Some(TextKind)
    else if text == "List[Text]" then Some(ListKind)
    else if text == "Void" then Some(VoidKind)
    else None
  }

  /** The parameters behind the semicolon, counted and cut like the arguments of a call. */
  function DecodeParameters(text: string): Option<seq<Kind>> {
    var call := "f(" + text + ")";
    var n := Arity(call, 1);
    if n < 0 then None
    else if exists i :: 0 <= i < n && KindNamed(Argument(call, 1, i)).None? then None
    else Some(seq(n, i requires 0 <= i < n => var kind := KindNamed(Argument(call, 1, i)); if kind.Some? then kind.value else VoidKind))
  }

  /** A signature's result stands before its semicolon; without a semicolon there is no result and no parameter. */
  function Decode(text: string): Option<Signature> {
    var semicolon := Find(text, ";");
    var parameters := DecodeParameters(if semicolon < 0 then "" else text[semicolon + 1..]);
    if parameters.None? then None
    else Some(Signature(if semicolon < 0 then None else KindNamed(text[..semicolon]), parameters.value))
  }

  predicate Holds(scope: string, name: string, kind: Kind) {
    Occurs("|" + name + ":" + KindText(kind) + "|", scope) || Occurs("|" + name + ":" + KindText(kind) + "!|", scope)
  }

  function VariableKind(scope: string, name: string): Option<Kind> {
    if Holds(scope, name, IntKind) then Some(IntKind)
    else if Holds(scope, name, BoolKind) then Some(BoolKind)
    else if Holds(scope, name, TextKind) then Some(TextKind)
    else if Holds(scope, name, ListKind) then Some(ListKind)
    else None
  }

  /** What both typings look up in a scope. */
  function BoundOf(items: seq<Item>): Bound {
    var scope := ScopeText(items);
    Bound(
      name => VariableKind(scope, name),
      name => var found := SignatureText(scope, name); if found == "" then None else Decode(found))
  }

  // ----- where the marks stand -----

  lemma NameIsPlain(name: string, c: char)
    requires ValidName(name) && !IsIdentifier(c)
    ensures c !in name
  {
  }

  lemma KindIsPlain(kind: Kind)
    ensures forall c :: c in KindText(kind) ==> c in "IntBoolTextListVoid[]"
    ensures KindText(kind) != ""
  {
  }

  lemma {:induction false} ParametersArePlain(kinds: seq<Kind>)
    ensures forall c :: c in ParametersText(kinds) ==> c in "IntBoolTextListVoid[],"
  {
    if kinds != [] {
      KindIsPlain(kinds[|kinds| - 1]);
      ParametersArePlain(kinds[..|kinds| - 1]);
    }
  }

  predicate NoMark(s: string) {
    ':' !in s && '|' !in s && '@' !in s
  }

  lemma KindHasNoMark(kind: Kind)
    ensures NoMark(KindText(kind)) && KindText(kind) != ""
  {
    match kind
    case IntKind =>
    case BoolKind =>
    case TextKind =>
    case ListKind =>
    case VoidKind =>
  }

  lemma {:induction false} ParametersHaveNoMark(kinds: seq<Kind>)
    ensures NoMark(ParametersText(kinds))
  {
    hide KindText;
    if kinds != [] {
      KindHasNoMark(kinds[|kinds| - 1]);
      ParametersHaveNoMark(kinds[..|kinds| - 1]);
    }
  }

  /** No mark of the scope's text stands inside what an entry says. */
  lemma BodyIsPlain(item: Item)
    ensures ':' !in Body(item) && '|' !in Body(item) && '@' !in Body(item)
    ensures !item.Opened? ==> Body(item) != ""
  {
    hide KindText, ParametersText;
    match item
    case Declared(_, result, parameters) =>
      KindHasNoMark(result);
      ParametersHaveNoMark(parameters);
    case Variable(_, kind, _) => KindHasNoMark(kind);
    case Opened =>
  }

  lemma HeadIsPlain(item: Item)
    requires ValidItem(item)
    ensures ':' !in Head(item) && '|' !in Head(item)
    ensures forall i :: 0 <= i < |Head(item)| && Head(item)[i] == '@' ==> i == 0 && item.Declared?
  {
    if !item.Opened? {
      NameIsPlain(item.name, ':');
      NameIsPlain(item.name, '|');
      NameIsPlain(item.name, '@');
    }
  }

  lemma ItemAt(item: Item, q: nat)
    requires q < |ItemText(item)|
    ensures item.Opened? ==> ItemText(item)[q] == '{' || ItemText(item)[q] == '|'
    ensures !item.Opened? && q < |Head(item)| ==> ItemText(item)[q] == Head(item)[q]
    ensures !item.Opened? && q == |Head(item)| ==> ItemText(item)[q] == ':'
    ensures !item.Opened? && q > |Head(item)| ==> q - |Head(item)| - 1 <= |Body(item)| && ItemText(item)[q] == (Body(item) + "|")[q - |Head(item)| - 1]
  {
    hide Head, Body;
  }

  lemma BodyAt(item: Item, i: nat)
    requires i <= |Body(item)|
    ensures (Body(item) + "|")[i] != ':' && (Body(item) + "|")[i] != '@'
  {
    BodyIsPlain(item);
    hide Body;
  }

  /** The one colon of an entry stands behind its head, an at sign only at its start. */
  lemma MarkPlaces(item: Item, q: nat)
    requires ValidItem(item) && q < |ItemText(item)|
    ensures ItemText(item)[q] == ':' ==> !item.Opened? && q == |Head(item)|
    ensures ItemText(item)[q] == '@' ==> item.Declared? && q == 0
  {
    ItemAt(item, q);
    hide Body, ItemText, ValidItem;
    if item.Opened? {
    } else if q < |Head(item)| {
      HeadAt(item, q);
    } else if q > |Head(item)| {
      BodyAt(item, q - |Head(item)| - 1);
    }
  }

  lemma HeadAt(item: Item, q: nat)
    requires ValidItem(item) && q < |Head(item)|
    ensures Head(item)[q] != ':' && (Head(item)[q] == '@' ==> q == 0 && item.Declared?)
  {
    HeadIsPlain(item);
    hide Head;
  }

  lemma MarksInItem(item: Item, q: nat)
    requires ValidItem(item) && q < |ItemText(item)|
    ensures ItemText(item)[q] == ':' ==> !item.Opened? && q == |Head(item)| && ItemText(item)[q..] == ":" + (Body(item) + "|")
    ensures ItemText(item)[q] == '@' ==> item.Declared? && q == 0 && ItemText(item) == "@" + (item.name + (":" + (Body(item) + "|")))
  {
    hide Body, Head, ItemText, ValidItem;
    MarkPlaces(item, q);
    ItemParts(item);
  }

  lemma ItemParts(item: Item)
    ensures !item.Opened? ==> |ItemText(item)| > |Head(item)| && ItemText(item)[|Head(item)|..] == ":" + (Body(item) + "|")
    ensures item.Declared? ==> ItemText(item) == "@" + (item.name + (":" + (Body(item) + "|")))
  {
    hide Body;
    if item.Declared? { Regroup("@", item.name, ":" + (Body(item) + "|")); }
  }

  /** Text from a place on: inside the first entry, or inside the others. */
  lemma TextFrom(items: seq<Item>, q: nat)
    requires items != [] && q < |ItemsText(items)|
    ensures var first := ItemText(items[0]);
      && (q < |first| ==> ItemsText(items)[q] == first[q] && ItemsText(items)[q..] == first[q..] + ItemsText(items[1..]))
      && (q >= |first| ==>
            && q - |first| < |ItemsText(items[1..])|
            && ItemsText(items)[q] == ItemsText(items[1..])[q - |first|]
            && ItemsText(items)[q..] == ItemsText(items[1..])[q - |first|..])
  {
    hide ItemText;
  }

  lemma Regroup(a: string, b: string, c: string)
    ensures (a + b) + c == a + (b + c)
  {
  }

  /** A colon of the scope stands behind an entry's head. */
  lemma {:induction false} ColonSplits(items: seq<Item>, q: nat) returns (item: Item, rest: string)
    requires ValidItems(items) && q < |ItemsText(items)| && ItemsText(items)[q] == ':'
    ensures item in items && !item.Opened? && ItemsText(items)[q..] == ":" + (Body(item) + ("|" + rest))
  {
    hide ItemText, Body, Head, ItemsText, ValidItem;
    Nonempty(items);
    TextFrom(items, q);
    item, rest := items[0], ItemsText(items[1..]);
    if q < |ItemText(item)| {
      MarksInItem(item, q);
      Regroup(":", Body(item) + "|", rest);
      Regroup(Body(item), "|", rest);
    } else {
      item, rest := ColonSplits(items[1..], q - |ItemText(item)|);
    }
  }

  lemma Nonempty(items: seq<Item>)
    ensures ItemsText(items) != "" ==> items != []
  {
  }

  /** An at sign of the scope starts a declared function. */
  lemma {:induction false} AtSplits(items: seq<Item>, q: nat) returns (item: Item, rest: string)
    requires ValidItems(items) && q < |ItemsText(items)| && ItemsText(items)[q] == '@'
    ensures item in items && item.Declared?
    ensures ItemsText(items)[q..] == "@" + (item.name + (":" + (Body(item) + ("|" + rest))))
  {
    hide ItemText, Body, Head, ItemsText, ValidItem;
    Nonempty(items);
    TextFrom(items, q);
    item, rest := items[0], ItemsText(items[1..]);
    var others := rest;
    if q < |ItemText(item)| {
      MarksInItem(item, q);
      Regroup(Body(item), "|", others);
      assert ItemText(item)[0..] == ItemText(item);
      Regroup("@", item.name + (":" + (Body(item) + "|")), others);
      Regroup(item.name, ":" + (Body(item) + "|"), others);
      Regroup(":", Body(item) + "|", others);
    } else {
      item, rest := AtSplits(items[1..], q - |ItemText(item)|);
    }
  }

  // ----- what is found -----

  /** Where a function's marker is found, a declared function's entry follows the at sign. */
  lemma MarkerSplits(items: seq<Item>, head: string) returns (item: Item, rest: string)
    requires ValidItems(items) && Find(ScopeText(items), "|@" + head + ":") >= 0
    ensures item in items && item.Declared? && head + ":" <= item.name + (":" + (Body(item) + ("|" + rest)))
    ensures ItemsText(items)[Find(ScopeText(items), "|@" + head + ":") + 1..] == item.name + (":" + (Body(item) + ("|" + rest)))
  {
    hide ItemsText, Find, ValidItem;
    var text, marker := ItemsText(items), "|@" + head + ":";
    var p := Find(ScopeText(items), marker);
    BehindMarker(text, head, p);
    item, rest := AtSplits(items, p);
    assert text[p + 1..] == text[p..][1..] == item.name + (":" + (Body(item) + ("|" + rest)));
  }

  lemma BehindMarker(text: string, head: string, p: nat)
    requires var marker := "|@" + head + ":"; p + |marker| <= |"|" + text| && ("|" + text)[p..p + |marker|] == marker
    ensures p + |head| + 2 <= |text| && text[p] == '@' && text[p + 1 + |head|] == ':' && head + ":" <= text[p + 1..]
  {
    var marker := "|@" + head + ":";
    var found := ("|" + text)[p..p + |marker|];
    assert found[1] == text[p] && marker[1] == '@';
    forall i | 0 <= i <= |head| ensures (head + ":")[i] == text[p + 1 + i] {
      assert found[i + 2] == text[p + 1 + i] && marker[i + 2] == (head + ":")[i];
    }
    assert (head + ":")[|head|] == ':';
  }

  /** Only names are found: a found head starts like one, and names joined by bars are not found. */
  lemma ScopeFindsNames(items: seq<Item>)
    requires ValidItems(items)
    ensures FindsNames(BoundOf(items))
  {
    hide Find, Occurs, ItemsText, Decode, Body;
    var b, scope := BoundOf(items), ScopeText(items);
    forall head | b.signatureOf(head).Some? ensures head != [] && IsIdentifier(head[0]) {
      assert SignatureText(scope, head) != "";
      var item, rest := MarkerSplits(items, head);
      FirstOfName(head, item.name, Body(item) + ("|" + rest));
    }
    forall head | BarredName(head) ensures b.signatureOf(head).None? {
      if b.signatureOf(head).Some? {
        assert SignatureText(scope, head) != "";
        var item, rest := MarkerSplits(items, head);
        NameUpToColon(head, item.name, Body(item) + ("|" + rest));
        NameIsPlain(item.name, '|');
      }
    }
  }

  lemma FirstOfName(head: string, name: string, rest: string)
    requires ValidName(name) && head + ":" <= name + (":" + rest)
    ensures head != [] && IsIdentifier(head[0])
  {
    assert (head + ":")[0] == (name + (":" + rest))[0] == name[0];
  }

  lemma {:induction false} NameUpToColon(head: string, name: string, rest: string)
    requires ':' !in head && ':' !in name && head + ":" <= name + (":" + rest)
    ensures head == name
  {
    assert (head + ":")[0] == (name + (":" + rest))[0];
    if head != [] && name != [] {
      assert (head + ":")[1..] == head[1..] + ":" && (name + (":" + rest))[1..] == name[1..] + (":" + rest);
      NameUpToColon(head[1..], name[1..], rest);
      assert head == [head[0]] + head[1..] && name == [name[0]] + name[1..];
    }
  }

  /** The first mark behind a text without it. */
  lemma {:induction false} FindMark(text: string, mark: char, rest: string)
    requires mark !in text
    ensures Find(text + ([mark] + rest), [mark]) == |text|
  {
    var whole := text + ([mark] + rest);
    if text == "" {
      assert whole == [mark] + rest;
    } else {
      assert whole[0] == text[0] != mark;
      assert whole[1..] == text[1..] + ([mark] + rest);
      FindMark(text[1..], mark, rest);
    }
  }

  lemma {:induction false} FindNothing(text: string, mark: char)
    requires mark !in text
    ensures Find(text, [mark]) == -1
  {
    if text != "" {
      assert text[0] != mark;
      FindNothing(text[1..], mark);
    }
  }

  lemma TextBehind(text: string, head: string, p: nat)
    requires p + |head| + 2 <= |text|
    ensures ("|" + text)[p + |"|@" + head + ":"|..] == text[p + 1 + |head|..][1..]
  {
  }

  lemma Tail(text: string, rest: string)
    requires text == ":" + rest
    ensures text[1..] == rest
  {
  }

  lemma CutAtBar(body: string, rest: string)
    requires '|' !in body
    ensures var tail := body + ("|" + rest); Find(tail, "|") == |body| && tail[..|body|] == body
  {
    FindMark(body, '|', rest);
  }

  /** What stands between a function's marker and the next bar is its signature. */
  lemma SignatureIs(scope: string, head: string, p: nat, body: string, rest: string)
    requires p == Find(scope, "|@" + head + ":") && scope[p + |"|@" + head + ":"|..] == body + ("|" + rest)
    requires '|' !in body
    ensures SignatureText(scope, head) == body
  {
    hide Find;
    CutAtBar(body, rest);
  }

  lemma CutIsSignature(text: string, head: string, p: nat, body: string, rest: string)
    requires p == Find("|" + text, "|@" + head + ":")
    requires p + |head| + 2 <= |text| && text[p + 1 + |head|..][1..] == body + ("|" + rest)
    requires '|' !in body
    ensures SignatureText("|" + text, head) == body
  {
    hide Find, SignatureText;
    TextBehind(text, head, p);
    SignatureIs("|" + text, head, p, body, rest);
  }

  /** Whatever the marker search finds is what some entry says. */
  lemma FoundIsBody(items: seq<Item>, head: string) returns (item: Item)
    requires ValidItems(items) && SignatureText(ScopeText(items), head) != ""
    ensures item in items && !item.Opened? && SignatureText(ScopeText(items), head) == Body(item)
  {
    var text := ItemsText(items);
    var p := Find(ScopeText(items), "|@" + head + ":");
    assert p >= 0;
    hide ItemsText, Find, Body, ValidItem, SignatureText;
    BehindMarker(text, head, p);
    var rest: string;
    item, rest := ColonSplits(items, p + 1 + |head|);
    BodyIsPlain(item);
    Tail(text[p + 1 + |head|..], Body(item) + ("|" + rest));
    CutIsSignature(text, head, p, Body(item), rest);
  }

  /** A head without colons finds the entry of that name. */
  lemma NamedIsFound(items: seq<Item>, head: string) returns (item: Item)
    requires ValidItems(items) && ':' !in head && Find(ScopeText(items), "|@" + head + ":") >= 0
    ensures item in items && item.Declared? && item.name == head && SignatureText(ScopeText(items), head) == Body(item)
  {
    hide ItemsText, Find, Body, ValidItem, SignatureText;
    var text := ItemsText(items);
    var p := Find(ScopeText(items), "|@" + head + ":");
    var rest: string;
    item, rest := MarkerSplits(items, head);
    ValidNames(items, item);
    NameIsPlain(item.name, ':');
    NameUpToColon(head, item.name, Body(item) + ("|" + rest));
    BodyIsPlain(item);
    BehindMarker(text, head, p);
    BehindName(text, head, p, Body(item) + ("|" + rest));
    CutIsSignature(text, head, p, Body(item), rest);
  }

  lemma ValidNames(items: seq<Item>, item: Item)
    requires ValidItems(items) && item in items && item.Declared?
    ensures ValidName(item.name)
  {
  }

  lemma BehindName(text: string, head: string, p: nat, rest: string)
    requires p + 1 <= |text| && text[p + 1..] == head + (":" + rest)
    ensures text[p + 1..][|head| + 1..] == rest
    ensures p + |head| + 2 <= |text| && text[p + 1 + |head|..][1..] == rest
  {
    assert (head + (":" + rest))[|head| + 1..] == rest;
  }

  /** A declared function's marker occurs in the scope. */
  lemma {:induction false} DeclaredOccurs(items: seq<Item>, item: Item)
    requires item in items && item.Declared?
    ensures Occurs("|@" + item.name + ":", ScopeText(items))
  {
    hide *;
    if item == items[0] {
      FirstOccurs(items);
    } else {
      assert item in items[1..];
      DeclaredOccurs(items[1..], item);
      var front := ScopeOpens(items);
      OccursLater("|@" + item.name + ":", front, ScopeText(items[1..]));
    }
  }

  lemma FirstOccurs(items: seq<Item>)
    requires items != [] && items[0].Declared?
    ensures Occurs("|@" + items[0].name + ":", ScopeText(items))
  {
    hide Body, Occurs, ItemText;
    ItemParts(items[0]);
    MarkerLeads(items[0].name, Body(items[0]) + "|", ItemsText(items[1..]));
    StartsOccur("|@" + items[0].name + ":", (Body(items[0]) + "|") + ItemsText(items[1..]));
  }

  lemma MarkerLeads(name: string, body: string, others: string)
    ensures "|" + (("@" + (name + (":" + body))) + others) == ("|@" + name + ":") + (body + others)
  {
    Regroup("@", name + (":" + body), others);
    Regroup(name, ":" + body, others);
    Regroup(":", body, others);
    Regroup("|", "@", name + (":" + (body + others)));
    Regroup("|@", name, ":" + (body + others));
    Regroup("|@" + name, ":", body + others);
  }

  lemma ScopeOpens(items: seq<Item>) returns (front: string)
    requires items != []
    ensures ScopeText(items) == front + ScopeText(items[1..])
  {
    front := EndsInBar(items[0]);
    assert ScopeText(items) == ("|" + front) + ScopeText(items[1..]);
    front := "|" + front;
  }

  lemma StartsOccur(needle: string, rest: string)
    ensures Occurs(needle, needle + rest)
  {
  }

  lemma EndsInBar(item: Item) returns (front: string)
    ensures ItemText(item) == front + "|"
  {
    hide Body;
    if item.Opened? {
      front := "{";
    } else {
      front := Head(item) + (":" + Body(item));
    }
  }

  // ----- what an entry says, read back -----

  /** The signature an entry stands for. */
  function Meant(item: Item): Signature {
    if item.Declared? then Signature(Some(item.result), item.parameters) else Signature(None, [])
  }

  lemma KindRoundTrip(kind: Kind)
    ensures KindNamed(KindText(kind)) == Some(kind)
  {
  }

  /** The nesting inside a kind's text: only the list's own brackets. */
  lemma {:induction false} NestingInKind(s: string, kind: Kind, i: nat)
    requires NestingAt(s, |s|) == FLAT && i <= |KindText(kind)|
    ensures NestingAt(s + KindText(kind), |s| + i) == Nesting(0, if kind.ListKind? && 5 <= i < 10 then 1 else 0, UNQUOTED)
  {
    var t := s + KindText(kind);
    if i == 0 {
      NestingOfPrefix(t, |s|, |s|);
      assert t[..|s|] == s;
    } else {
      NestingInKind(s, kind, i - 1);
      assert t[|s| + i - 1] == KindText(kind)[i - 1];
      KindAt(kind, i - 1);
    }
  }

  lemma KindAt(kind: Kind, i: nat)
    requires i < |KindText(kind)|
    ensures var c := KindText(kind)[i];
      && (c == '[' <==> kind.ListKind? && i == 4) && (c == ']' <==> kind.ListKind? && i == 9)
      && c != '"' && c != '(' && c != ')' && c != ',' && !IsSpace(c)
    ensures kind.ListKind? ==> |KindText(kind)| == 10
  {
  }

  lemma {:induction false} NestingOfPrefix(e: string, n: nat, i: nat)
    requires i <= n <= |e|
    ensures NestingAt(e[..n], i) == NestingAt(e, i)
  {
    if i > 0 { NestingOfPrefix(e, n, i - 1); }
  }

  lemma {:induction false} CommasOfPrefix(e: string, n: nat, i: nat)
    requires i <= n <= |e|
    ensures Commas(e[..n], i) == Commas(e, i)
  {
    if i > 0 {
      CommasOfPrefix(e, n, i - 1);
      NestingOfPrefix(e, n, i - 1);
    }
  }

  /** The last parameter of a list, and what stands before it. */
  lemma ListEnds(kinds: seq<Kind>)
    requires |kinds| > 1
    ensures var front := ParametersText(kinds[..|kinds| - 1]);
      ParametersText(kinds) == (front + ",") + KindText(kinds[|kinds| - 1]) && ParametersText(kinds)[..|front|] == front
  {
  }

  lemma {:induction false} ListNesting(kinds: seq<Kind>, i: nat)
    requires i <= |ParametersText(kinds)|
    ensures NestingAt(ParametersText(kinds), |ParametersText(kinds)|) == FLAT
    ensures var n := NestingAt(ParametersText(kinds), i); n.parens == 0 && n.brackets >= 0 && !n.q.quoted
  {
    hide ParametersText, KindText;
    if kinds == [] {
      NoParameters();
    } else if |kinds| == 1 {
      OneParameter(kinds);
      assert "" + KindText(kinds[0]) == ParametersText(kinds);
      LastNesting("", kinds[0], i);
    } else {
      ListEnds(kinds);
      var front := ParametersText(kinds[..|kinds| - 1]);
      ListNesting(kinds[..|kinds| - 1], if i <= |front| then i else 0);
      CommaKeepsFlat(front);
      if i <= |front| { NestingOfPrefix(ParametersText(kinds), |front|, i); }
      LastNesting(front + ",", kinds[|kinds| - 1], i);
    }
  }

  /** Behind a flat text a parameter stays shallow and ends flat. */
  lemma LastNesting(front: string, kind: Kind, i: nat)
    requires NestingAt(front, |front|) == FLAT && i <= |front + KindText(kind)|
    ensures NestingAt(front + KindText(kind), |front + KindText(kind)|) == FLAT
    ensures i >= |front| ==> var n := NestingAt(front + KindText(kind), i); n.parens == 0 && n.brackets >= 0 && !n.q.quoted
  {
    hide KindText;
    KindLength(kind);
    NestingInKind(front, kind, |KindText(kind)|);
    if i >= |front| { NestingInKind(front, kind, i - |front|); }
  }

  lemma NoParameters()
    ensures ParametersText([]) == ""
  {
  }

  lemma OneParameter(kinds: seq<Kind>)
    requires |kinds| == 1
    ensures ParametersText(kinds) == KindText(kinds[0])
  {
  }

  lemma KindLength(kind: Kind)
    ensures |KindText(kind)| == 10 <==> kind.ListKind?
    ensures KindText(kind) != "" && Trim(KindText(kind)) == KindText(kind)
  {
    var text := KindText(kind);
    KindAt(kind, 0);
    KindAt(kind, |text| - 1);
    assert Leading(text) == 0 && text[0..] == text;
  }

  lemma CommaKeepsFlat(front: string)
    requires NestingAt(front, |front|) == FLAT
    ensures NestingAt(front + ",", |front| + 1) == FLAT
  {
    NestingOfPrefix(front + ",", |front|, |front|);
    assert (front + ",")[..|front|] == front;
  }

  lemma {:induction false} NoCommaAhead(e: string, a: nat, b: nat)
    requires a <= b <= |e| && forall i :: a <= i < b ==> e[i] != ','
    ensures Commas(e, b) == Commas(e, a)
    decreases b
  {
    if a < b {
      assert e[b - 1] != ',';
      NoCommaAhead(e, a, b - 1);
    }
  }

  /** The commas of a parameter list stand where each of its beginnings ends. */
  lemma {:induction false} ListCommas(kinds: seq<Kind>)
    requires kinds != []
    ensures var list := ParametersText(kinds);
      && |Commas(list, |list|)| == |kinds| - 1
      && forall k :: 0 <= k < |kinds| - 1 ==> Commas(list, |list|)[k] == |ParametersText(kinds[..k + 1])|
  {
    hide ParametersText, KindText;
    var list, last := ParametersText(kinds), kinds[|kinds| - 1];
    if |kinds| == 1 {
      OneParameter(kinds);
      forall i | 0 <= i < |list| ensures list[i] != ',' { KindAt(last, i); }
      NoCommaAhead(list, 0, |list|);
    } else {
      var others := kinds[..|kinds| - 1];
      var front := ParametersText(others);
      ListEnds(kinds);
      ListCommas(others);
      CommasOfPrefix(list, |front|, |front|);
      ListNesting(others, 0);
      NestingOfPrefix(list, |front|, |front|);
      assert list[|front|] == ',';
      assert Commas(list, |front| + 1) == Commas(front, |front|) + [|front|];
      forall i | |front| + 1 <= i < |list| ensures list[i] != ',' {
        assert list[i] == KindText(last)[i - |front| - 1];
        KindAt(last, i - |front| - 1);
      }
      NoCommaAhead(list, |front| + 1, |list|);
      forall k | 0 <= k < |kinds| - 1 ensures Commas(list, |list|)[k] == |ParametersText(kinds[..k + 1])| {
        if k < |others| - 1 { assert others[..k + 1] == kinds[..k + 1]; } else { assert kinds[..k + 1] == others; }
      }
    }
  }

  lemma {:induction false} ListPrefix(kinds: seq<Kind>, k: nat)
    requires 0 < k <= |kinds|
    ensures ParametersText(kinds[..k]) <= ParametersText(kinds)
  {
    hide ParametersText;
    if k == |kinds| {
      assert kinds[..k] == kinds;
    } else {
      var others := kinds[..|kinds| - 1];
      ListEnds(kinds);
      assert others[..k] == kinds[..k];
      ListPrefix(others, k);
    }
  }

  lemma ListPiece(kinds: seq<Kind>, k: nat)
    requires k < |kinds|
    ensures k <= |Commas(ParametersText(kinds), |ParametersText(kinds)|)|
    ensures Piece(ParametersText(kinds), k) == KindText(kinds[k])
  {
    hide ParametersText, KindText, Commas;
    var list := ParametersText(kinds);
    ListCommas(kinds);
    ListPrefix(kinds, k + 1);
    var upTo := kinds[..k + 1];
    if k + 1 == |kinds| { assert upTo == kinds; }
    if k == 0 {
      OneParameter(upTo);
    } else {
      ListEnds(upTo);
      assert upTo[..k] == kinds[..k];
    }
    var text := ParametersText(upTo);
    assert list[..|text|] == text;
  }

  lemma {:induction false} ClosesPlain(e: string, i: nat)
    requires 0 < i < |e| && e[|e| - 1] == ')'
    requires forall j :: i <= j < |e| - 1 ==> e[j] != '"' && e[j] != '(' && e[j] != ')'
    ensures ClosesAtEnd(e, i, 1, UNQUOTED)
    decreases |e| - i
  {
    if i < |e| - 1 { ClosesPlain(e, i + 1); }
  }

  /** A parameter list between the parentheses of a call: as many arguments as parameters, each its kind. */
  lemma ListIsCall(kinds: seq<Kind>)
    ensures var call := "f(" + ParametersText(kinds) + ")";
      && Arity(call, 1) == |kinds|
      && forall i :: 0 <= i < |kinds| ==> Argument(call, 1, i) == KindText(kinds[i])
  {
    hide ParametersText, KindText, Commas, ClosesAtEnd, Trim;
    var list := ParametersText(kinds);
    var call := "f(" + list + ")";
    ListWraps(kinds);
    ListTrim(kinds);
    forall i: nat | i <= |list| ensures NestingAt(list, i).parens >= 0 && NestingAt(list, i).brackets >= 0 { ListNesting(kinds, i); }
    ListNesting(kinds, 0);
    if kinds != [] { ListCommas(kinds); }
    forall i | 0 <= i < |kinds| ensures Argument(call, 1, i) == KindText(kinds[i]) {
      ListPiece(kinds, i);
      KindLength(kinds[i]);
    }
  }

  lemma TrimKeepsFirst(s: string)
    requires s != [] && !IsSpace(s[0])
    ensures Trim(s) != ""
  {
    assert Leading(s) == 0 && s[0..] == s;
  }

  lemma ListTrim(kinds: seq<Kind>)
    ensures Trim(ParametersText(kinds)) == "" <==> kinds == []
  {
    hide ParametersText, KindText;
    if kinds == [] {
      NoParameters();
    } else {
      var list := ParametersText(kinds);
      ListPrefix(kinds, 1);
      OneParameter(kinds[..1]);
      KindLength(kinds[0]);
      KindAt(kinds[0], 0);
      assert list[0] == KindText(kinds[0])[0];
      TrimKeepsFirst(list);
    }
  }

  lemma ListWraps(kinds: seq<Kind>)
    ensures var call := "f(" + ParametersText(kinds) + ")";
      WrapsWhole(call[1..]) && CallBody(call, 1) == ParametersText(kinds)
  {
    hide ParametersText, KindText, ClosesAtEnd;
    var list := ParametersText(kinds);
    var p := ("f(" + list + ")")[1..];
    assert p == "(" + list + ")";
    ParametersArePlain(kinds);
    forall j | 1 <= j < |p| - 1 ensures p[j] != '"' && p[j] != '(' && p[j] != ')' {
      assert p[j] == list[j - 1] && list[j - 1] in list;
    }
    ClosesPlain(p, 1);
    Opens(p);
    assert p[1..|p| - 1] == list;
  }

  lemma Opens(p: string)
    requires |p| >= 2 && p[0] == '(' && ClosesAtEnd(p, 1, 1, UNQUOTED)
    ensures WrapsWhole(p)
  {
  }

  lemma ParametersRoundTrip(kinds: seq<Kind>)
    ensures DecodeParameters(ParametersText(kinds)) == Some(kinds)
  {
    hide ParametersText, Arity, Argument, KindNamed, KindText;
    ListIsCall(kinds);
    forall i | 0 <= i < |kinds| ensures KindNamed(Argument("f(" + ParametersText(kinds) + ")", 1, i)) == Some(kinds[i]) {
      KindRoundTrip(kinds[i]);
    }
    var decoded := DecodeParameters(ParametersText(kinds));
    assert decoded.Some? && |decoded.value| == |kinds|;
    forall i | 0 <= i < |kinds| ensures decoded.value[i] == kinds[i] {}
    assert decoded.value == kinds;
  }

  /** Decoding what an entry says gives the signature it stands for. */
  lemma BodyRoundTrip(item: Item)
    requires !item.Opened?
    ensures Decode(Body(item)) == Some(Meant(item))
  {
    hide KindText, ParametersText, DecodeParameters, KindNamed, Find;
    match item
    case Declared(_, result, parameters) =>
      var kind := KindText(result);
      NoSemicolon(result);
      FindMark(kind, ';', ParametersText(parameters));
      ParametersRoundTrip(parameters);
      KindRoundTrip(result);
      assert Body(item) == kind + (";" + ParametersText(parameters));
      assert Body(item)[..|kind|] == kind && Body(item)[|kind| + 1..] == ParametersText(parameters);
    case Variable(_, kind, _) =>
      NoSemicolon(kind);
      FindNothing(Body(item), ';');
      NoParameters();
      ParametersRoundTrip([]);
  }

  lemma NoSemicolon(kind: Kind)
    ensures ';' !in KindText(kind)
  {
    KindIsPlain(kind);
  }

  predicate UniqueNames(items: seq<Item>) {
    forall i, j :: 0 <= i < j < |items| && items[i].Declared? && items[j].Declared? ==> items[i].name != items[j].name
  }

  /** Looking a function up gives its own signature. */
  lemma DeclaredIsFound(items: seq<Item>, item: Item)
    requires ValidItems(items) && UniqueNames(items) && item in items && item.Declared?
    ensures BoundOf(items).signatureOf(item.name) == Some(Meant(item))
  {
    hide ItemsText, Find, Occurs, Body, Decode, ValidItem, UniqueNames;
    ValidNames(items, item);
    NameIsPlain(item.name, ':');
    DeclaredOccurs(items, item);
    var found := NamedIsFound(items, item.name);
    SameItem(items, item, found);
    BodyIsPlain(item);
    BodyRoundTrip(item);
  }

  lemma SameItem(items: seq<Item>, a: Item, b: Item)
    requires UniqueNames(items) && a in items && b in items && a.Declared? && b.Declared? && a.name == b.name
    ensures a == b
  {
  }

  /** Whatever head is looked up, what is found decodes: it is some entry's signature. */
  lemma FoundDecodes(items: seq<Item>, head: string) returns (item: Item)
    requires ValidItems(items) && SignatureText(ScopeText(items), head) != ""
    ensures item in items && !item.Opened? && BoundOf(items).signatureOf(head) == Some(Meant(item))
  {
    hide SignatureText, Decode, Body, ItemsText;
    item := FoundIsBody(items, head);
    BodyRoundTrip(item);
  }

  /** In the scope of any program, the validator and the lowerer answer alike exactly on plain heads and clean signs. */
  lemma SameAnswerInScope(items: seq<Item>, e: string)
    requires ValidItems(items)
    ensures var b := BoundOf(items);
      Profile(e, b) == Lower(e, b) <==>
        (Profile(e, b).Some? ==> PlainHeads(e)) && (Lower(e, b).Some? ==> CleanSigns(e, b))
  {
    hide Profile, Lower, PlainHeads, CleanSigns, FindsNames, BoundOf, ValidItems;
    ScopeFindsNames(items);
    SameAnswer(e, BoundOf(items));
  }

  /** No function is declared with a builtin's name. */
  predicate NoShadow(items: seq<Item>) {
    forall i :: 0 <= i < |items| && items[i].Declared? ==> !ListedBuiltin(items[i].name)
  }

  lemma ScopeUnshadowed(items: seq<Item>)
    requires ValidItems(items) && NoShadow(items)
    ensures Unshadowed(BoundOf(items))
  {
    hide Find, Occurs, ItemsText, Decode, ListedBuiltin, ValidItem;
    forall head | ListedBuiltin(head) ensures BoundOf(items).signatureOf(head).None? {
      if BoundOf(items).signatureOf(head).Some? {
        BuiltinIsPlain(head);
        var item := NamedIsFound(items, head);
        assert false;
      }
    }
  }

  lemma BuiltinIsPlain(head: string)
    requires ListedBuiltin(head)
    ensures ':' !in head
  {
    BuiltinsAreNames();
    NameIsPlain(head, ':');
  }

  /** Where no builtin's name is declared again, both conditions are read off the text alone. */
  lemma SameAnswerUnshadowed(items: seq<Item>, e: string)
    requires ValidItems(items) && NoShadow(items)
    ensures var b := BoundOf(items);
      Profile(e, b) == Lower(e, b) <==>
        (Profile(e, b).Some? ==> PlainHeads(e)) && (Lower(e, b).Some? ==> CleanSigns(e, NO_NAMES))
  {
    hide Profile, Lower, PlainHeads, CleanSigns, BoundOf, ValidItems, NoShadow, Unshadowed;
    SameAnswerInScope(items, e);
    ScopeUnshadowed(items);
    CleanIsTextual(e, BoundOf(items));
  }
}
