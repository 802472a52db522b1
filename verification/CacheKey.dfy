/** The bytes the visible-confusables cache key hashes: framed, canonical and decodable. */
module CacheKey {
  import opened Buffers
  import opened ByteOrder
  import opened Confusables
  import opened Wrappers

  /** A length as eight bytes, most significant first. */
  function BigEndian(value: nat, width: nat): (r: Text)
    ensures |r| == width
  {
    if width == 0 then [] else BigEndian(value / 256, width - 1) + [value % 256]
  }

  function ReadBig(bytes: Text): nat {
    if bytes == [] then 0 else 256 * ReadBig(bytes[..|bytes| - 1]) + bytes[|bytes| - 1]
  }

  lemma {:induction false} BigEndianRoundTrip(value: nat, width: nat)
    requires value < Pow256(width)
    ensures ReadBig(BigEndian(value, width)) == value
  {
    if width > 0 {
      BigEndianRoundTrip(value / 256, width - 1);
      assert BigEndian(value, width)[..width - 1] == BigEndian(value / 256, width - 1);
    }
  }

  function Frame(bytes: Text): Text {
    BigEndian(|bytes|, 8) + bytes
  }

  function Frames(fields: seq<Text>): Text {
    if fields == [] then [] else Frames(fields[..|fields| - 1]) + Frame(fields[|fields| - 1])
  }

  /** The five fields of a binding the key covers. */
  function CachedFields(w: Work): seq<Text> {
    [w.binding.moduleId, w.binding.namespaceId, w.binding.spelling, w.binding.bindingId, w.binding.targetId]
  }

  function AllFields(domain: Text, digest: Text, ws: seq<Work>): seq<Text> {
    if ws == [] then [domain, digest]
    else AllFields(domain, digest, ws[..|ws| - 1]) + CachedFields(ws[|ws| - 1])
  }

  /** Everything the hash sees, for the items in sorted order. */
  function Preimage(domain: Text, digest: Text, ws: seq<Work>): Text {
    Frames(AllFields(domain, digest, ws))
  }

  // ----- computing it -----

  lemma {:induction false} ShiftedStep(value: nat, k: nat)
    ensures Shifted(value, k + 1) == Shifted(value, k) / 256
  {
    if k > 0 { ShiftedStep(value / 256, k - 1); }
  }

  /** Feeds one framed field to the hash. */
  method HashFramed(context: Bytes, bytes: Text)
    modifies context
    ensures context.data == old(context.data) + Frame(bytes)
  {
    var header: Text := [];
    var index := 0;
    while index < 8
      invariant 0 <= index <= 8 && context.data == old(context.data)
      invariant header == BigEndian(Shifted(|bytes|, 8 - index), index)
    {
      ShiftedStep(|bytes|, 7 - index);
      header := header + [Shifted(|bytes|, 7 - index) % 256];
      index := index + 1;
    }
    Feed(context, header);
    Feed(context, bytes);
  }

  method Feed(context: Bytes, bytes: Text)
    modifies context
    ensures context.data == old(context.data) + bytes
  {
    var index := 0;
    while index < |bytes|
      invariant 0 <= index <= |bytes| && context.data == old(context.data) + bytes[..index]
    {
      context.Byte(bytes[index]);
      index := index + 1;
    }
    assert bytes[..index] == bytes;
  }

  lemma FramesAppend(fields: seq<Text>, field: Text)
    ensures Frames(fields + [field]) == Frames(fields) + Frame(field)
  {
    assert (fields + [field])[..|fields|] == fields;
  }

  method HashBinding(context: Bytes, w: Work, ghost before: seq<Text>)
    requires context.data == Frames(before)
    modifies context
    ensures context.data == Frames(before + CachedFields(w))
  {
    hide Frames, Frame;
    ghost var fields := CachedFields(w);
    HashFramed(context, w.binding.moduleId);
    FramesAppend(before, fields[0]);
    HashFramed(context, w.binding.namespaceId);
    FramesAppend(before + [fields[0]], fields[1]);
    HashFramed(context, w.binding.spelling);
    FramesAppend(before + [fields[0]] + [fields[1]], fields[2]);
    HashFramed(context, w.binding.bindingId);
    FramesAppend(before + [fields[0]] + [fields[1]] + [fields[2]], fields[3]);
    HashFramed(context, w.binding.targetId);
    FramesAppend(before + [fields[0]] + [fields[1]] + [fields[2]] + [fields[3]], fields[4]);
    assert before + [fields[0]] + [fields[1]] + [fields[2]] + [fields[3]] + [fields[4]] == before + fields;
  }

  ghost predicate Framable(fields: seq<Text>) {
    forall k :: 0 <= k < |fields| ==> |fields[k]| < Pow256(8)
  }

  /** Feeds the domain, the Unicode data digest and every sorted binding to the hash. */
  method ComputePreimage(domain: Text, digest: Text, ws: seq<Work>) returns (context: Bytes)
    ensures context.data == Preimage(domain, digest, ws)
  {
    context := new Bytes();
    HashFramed(context, domain);
    HashFramed(context, digest);
    FramesAppend([], domain);
    FramesAppend([domain], digest);
    assert [] + [domain] == [domain] && [domain] + [digest] == [domain, digest];
    var index := 0;
    while index < |ws|
      invariant 0 <= index <= |ws| && context.data == Preimage(domain, digest, ws[..index])
    {
      assert ws[..index + 1][..index] == ws[..index];
      HashBinding(context, ws[index], AllFields(domain, digest, ws[..index]));
      index := index + 1;
    }
    assert ws[..index] == ws;
  }

  // ----- decoding it -----

  /** Reads frames until the bytes end. */
  function ReadFrames(data: Text): Option<seq<Text>>
    decreases |data|
  {
    if data == [] then Some([])
    else if |data| < 8 then None
    else
      var length := ReadBig(data[..8]);
      if |data| < 8 + length then None
      else
        var rest := ReadFrames(data[8 + length..]);
        if rest.None? then None else Some([data[8..8 + length]] + rest.value)
  }

  lemma {:induction false} FramesConcat(a: seq<Text>, b: seq<Text>)
    ensures Frames(a + b) == Frames(a) + Frames(b)
  {
    hide Frame, Frames;
    NoFrames();
    if b == [] {
      assert a + b == a;
    } else {
      var front, last := b[..|b| - 1], b[|b| - 1];
      assert b == front + [last];
      FramesConcat(a, front);
      FramesAppend(front, last);
      assert a + b == (a + front) + [last];
      FramesAppend(a + front, last);
    }
  }

  lemma NoFrames()
    ensures Frames([]) == []
  {
  }

  lemma FramesHead(fields: seq<Text>)
    requires fields != []
    ensures Frames(fields) == Frame(fields[0]) + Frames(fields[1..])
  {
    hide Frame;
    var one := [fields[0]];
    assert fields == one + fields[1..];
    FramesConcat(one, fields[1..]);
    assert one[..0] == [] && Frames(one) == Frames(one[..0]) + Frame(fields[0]);
  }

  lemma {:induction false} FramesRoundTrip(fields: seq<Text>)
    requires Framable(fields)
    ensures ReadFrames(Frames(fields)) == Some(fields)
  {
    if fields != [] {
      var head := fields[0];
      var data := Frames(fields);
      FramesHead(fields);
      BigEndianRoundTrip(|head|, 8);
      assert data[..8] == BigEndian(|head|, 8);
      assert data[8..8 + |head|] == head;
      assert data[8 + |head|..] == Frames(fields[1..]);
      assert forall k :: 0 <= k < |fields| - 1 ==> fields[1..][k] == fields[k + 1];
      FramesRoundTrip(fields[1..]);
      assert [head] + fields[1..] == fields;
    }
  }

  /** A length that eight bytes hold. */
  predicate Measured(bytes: Text) {
    |bytes| < 0x1_0000_0000_0000_0000
  }

  /** Nothing that is hashed is too long for its frame. */
  ghost predicate MeasuredInput(domain: Text, digest: Text, ws: seq<Work>) {
    && Measured(domain) && Measured(digest)
    && forall i :: 0 <= i < |ws| ==>
        && Measured(ws[i].binding.moduleId) && Measured(ws[i].binding.namespaceId) && Measured(ws[i].binding.spelling)
        && Measured(ws[i].binding.bindingId) && Measured(ws[i].binding.targetId)
  }

  /** The frames from the base-th on are what the key covers of a binding. */
  ghost predicate FramesOf(frames: seq<Text>, base: nat, b: Binding) {
    && base + 5 <= |frames|
    && frames[base] == b.moduleId && frames[base + 1] == b.namespaceId && frames[base + 2] == b.spelling
    && frames[base + 3] == b.bindingId && frames[base + 4] == b.targetId
  }

  lemma {:induction false} FieldPlaces(domain: Text, digest: Text, ws: seq<Work>)
    ensures var fields := AllFields(domain, digest, ws);
      && |fields| == 2 + 5 * |ws| && fields[0] == domain && fields[1] == digest
      && forall i :: 0 <= i < |ws| ==> FramesOf(fields, 2 + 5 * i, ws[i].binding)
  {
    if ws != [] {
      var front, last := ws[..|ws| - 1], ws[|ws| - 1];
      FieldPlaces(domain, digest, front);
      var fields := AllFields(domain, digest, ws);
      assert fields == AllFields(domain, digest, front) + CachedFields(last);
      forall i | 0 <= i < |ws| ensures FramesOf(fields, 2 + 5 * i, ws[i].binding) {
        if i < |front| { assert FramesOf(AllFields(domain, digest, front), 2 + 5 * i, front[i].binding); }
      }
    }
  }

  lemma {:induction false} MeasuredIsFramable(domain: Text, digest: Text, ws: seq<Work>)
    requires MeasuredInput(domain, digest, ws)
    ensures Framable(AllFields(domain, digest, ws))
  {
    assert Pow256(8) == 0x1_0000_0000_0000_0000 by { EightBytes(); }
    if ws != [] {
      MeasuredIsFramable(domain, digest, ws[..|ws| - 1]);
    }
  }

  lemma EightBytes()
    ensures Pow256(8) == 0x1_0000_0000_0000_0000
  {
    assert Pow256(4) == 0x1_0000_0000;
    assert Pow256(6) == 256 * 256 * Pow256(4);
  }

  /** The hashed bytes read back as the domain, the digest and, in order, five fields of every sorted binding. */
  lemma PreimageDecodes(domain: Text, digest: Text, ws: seq<Work>)
    requires MeasuredInput(domain, digest, ws)
    ensures var frames := ReadFrames(Preimage(domain, digest, ws));
      && frames.Some? && |frames.value| == 2 + 5 * |ws| && frames.value[0] == domain && frames.value[1] == digest
      && forall i :: 0 <= i < |ws| ==> FramesOf(frames.value, 2 + 5 * i, ws[i].binding)
  {
    hide AllFields, Frames, ReadFrames, Framable;
    MeasuredIsFramable(domain, digest, ws);
    FramesRoundTrip(AllFields(domain, digest, ws));
    FieldPlaces(domain, digest, ws);
  }

  // ----- it does not depend on the order of the input -----

  function Keys(ws: seq<Work>): (ks: seq<Key>)
    ensures |ks| == |ws| && forall i :: 0 <= i < |ws| ==> ks[i] == SortKey(ws[i])
  {
    seq(|ws|, i requires 0 <= i < |ws| => SortKey(ws[i]))
  }

  lemma SortKeyFields(a: Work, b: Work)
    requires SortKey(a) == SortKey(b)
    ensures CachedFields(a) == CachedFields(b)
  {
    assert SortKey(a)[0] == SortKey(b)[0] && SortKey(a)[1] == SortKey(b)[1] && SortKey(a)[3] == SortKey(b)[3];
    assert SortKey(a)[4] == SortKey(b)[4] && SortKey(a)[5] == SortKey(b)[5];
  }

  lemma {:induction false} SameKeysSameFields(domain: Text, digest: Text, a: seq<Work>, b: seq<Work>)
    requires Keys(a) == Keys(b)
    ensures AllFields(domain, digest, a) == AllFields(domain, digest, b)
  {
    hide SortKey;
    assert |a| == |Keys(a)| == |Keys(b)| == |b|;
    if a != [] {
      var n := |a| - 1;
      assert SortKey(a[n]) == Keys(a)[n] == Keys(b)[n] == SortKey(b[n]);
      SortKeyFields(a[n], b[n]);
      assert Keys(a[..n]) == Keys(a)[..n] && Keys(b[..n]) == Keys(b)[..n];
      SameKeysSameFields(domain, digest, a[..n], b[..n]);
    }
  }

  lemma KeysRemoved(a: seq<Work>, i: nat)
    requires i < |a|
    ensures multiset(Keys(a)) == multiset(Keys(a[..i] + a[i + 1..])) + multiset{SortKey(a[i])}
  {
    hide SortKey;
    Removed(Keys(a), i);
    assert Keys(a)[..i] + Keys(a)[i + 1..] == Keys(a[..i] + a[i + 1..]);
  }

  /** The same items, each as often. */
  ghost predicate Rearranged<T>(a: seq<T>, b: seq<T>) {
    multiset(a) == multiset(b)
  }

  lemma FirstElsewhere<T>(a: seq<T>, b: seq<T>) returns (i: nat)
    requires Rearranged(a, b) && a != []
    ensures i < |b| && b[i] == a[0] && Rearranged(a[1..], b[..i] + b[i + 1..])
  {
    assert a[0] in multiset(b);
    i :| 0 <= i < |b| && b[i] == a[0];
    SameRemoved(a, b, i);
  }

  lemma EmptyElsewhere<T>(a: seq<T>, b: seq<T>)
    requires Rearranged(a, b) && a == []
    ensures b == []
  {
    assert |b| == |multiset(b)|;
  }

  /** Putting one equal item back into rearranged rests. */
  lemma PutBack<T>(a: seq<T>, b: seq<T>, a': seq<T>, b': seq<T>, item: T)
    requires Rearranged(a', b')
    requires multiset(a) == multiset(a') + multiset{item} && multiset(b) == multiset(b') + multiset{item}
    ensures Rearranged(a, b)
  {
  }

  lemma KeysHead(a: seq<Work>)
    requires a != []
    ensures multiset(Keys(a)) == multiset(Keys(a[1..])) + multiset{SortKey(a[0])}
  {
    KeysRemoved(a, 0);
    assert a[..0] + a[1..] == a[1..];
  }

  /** Reordering items reorders their keys. */
  lemma {:induction false} KeysRearranged(a: seq<Work>, b: seq<Work>)
    requires Rearranged(a, b)
    ensures Rearranged(Keys(a), Keys(b))
    decreases |a|
  {
    hide SortKey, Rearranged;
    if a == [] {
      EmptyElsewhere(a, b);
      assert Rearranged(Keys(a), Keys(a)) by { SameRearranged(Keys(a)); }
    } else {
      var i := FirstElsewhere(a, b);
      KeysRearranged(a[1..], b[..i] + b[i + 1..]);
      KeysHead(a);
      KeysRemoved(b, i);
      PutBack(Keys(a), Keys(b), Keys(a[1..]), Keys(b[..i] + b[i + 1..]), SortKey(a[0]));
    }
  }

  lemma SameRearranged<T>(a: seq<T>)
    ensures Rearranged(a, a)
  {
  }

  lemma Removed<T>(s: seq<T>, i: nat)
    requires i < |s|
    ensures multiset(s) == multiset(s[..i] + s[i + 1..]) + multiset{s[i]}
  {
    assert s == s[..i] + [s[i]] + s[i + 1..];
  }

  lemma SameRemoved<T>(a: seq<T>, b: seq<T>, i: nat)
    requires multiset(a) == multiset(b) && a != [] && i < |b| && b[i] == a[0]
    ensures multiset(a[1..]) == multiset(b[..i] + b[i + 1..])
  {
    Removed(a, 0);
    Removed(b, i);
    assert a[..0] + a[1..] == a[1..];
    assert multiset(a[1..]) == multiset(a) - multiset{a[0]};
    assert multiset(b[..i] + b[i + 1..]) == multiset(b) - multiset{b[i]};
  }

  lemma SortedKeysAscend(ws: seq<Work>)
    requires Sorted(ws)
    ensures Ascending(Keys(ws))
  {
    hide SortKey, AtMost;
  }

  function KeysOf(a: seq<Binding>, skeletonOf: Text -> Option<Text>): seq<Key> {
    Keys(Prepared(a, skeletonOf))
  }

  function KeyAt(a: seq<Binding>, i: nat, skeletonOf: Text -> Option<Text>): Key
    requires i < |a|
  {
    SortKey(Prepared(a, skeletonOf)[i])
  }

  /** The keys of the bindings alone, whatever place in the input they have. */
  lemma {:induction false} PreparedRearranged(a: seq<Binding>, b: seq<Binding>, skeletonOf: Text -> Option<Text>)
    requires Rearranged(a, b)
    ensures Rearranged(KeysOf(a, skeletonOf), KeysOf(b, skeletonOf))
    decreases |a|
  {
    hide KeyAt, KeysOf, Rearranged;
    if a == [] {
      EmptyElsewhere(a, b);
      SameRearranged(KeysOf(a, skeletonOf));
    } else {
      var i := FirstElsewhere(a, b);
      PreparedRearranged(a[1..], b[..i] + b[i + 1..], skeletonOf);
      PreparedHead(a, skeletonOf);
      PreparedRemoved(b, i, skeletonOf);
      PreparedKeyOf(a, 0, b, i, skeletonOf);
      PutBack(KeysOf(a, skeletonOf), KeysOf(b, skeletonOf),
        KeysOf(a[1..], skeletonOf), KeysOf(b[..i] + b[i + 1..], skeletonOf),
        KeyAt(a, 0, skeletonOf));
    }
  }

  lemma PreparedHead(a: seq<Binding>, skeletonOf: Text -> Option<Text>)
    requires a != []
    ensures multiset(KeysOf(a, skeletonOf))
         == multiset(KeysOf(a[1..], skeletonOf)) + multiset{KeyAt(a, 0, skeletonOf)}
  {
    hide KeyAt, KeysOf;
    PreparedRemoved(a, 0, skeletonOf);
    assert a[..0] + a[1..] == a[1..];
  }

  lemma PreparedKeyOf(a: seq<Binding>, i: nat, b: seq<Binding>, j: nat, skeletonOf: Text -> Option<Text>)
    requires i < |a| && j < |b| && a[i] == b[j]
    ensures KeyAt(a, i, skeletonOf) == KeyAt(b, j, skeletonOf)
  {
  }

  lemma PreparedRemoved(a: seq<Binding>, i: nat, skeletonOf: Text -> Option<Text>)
    requires i < |a|
    ensures multiset(KeysOf(a, skeletonOf))
         == multiset(KeysOf(a[..i] + a[i + 1..], skeletonOf)) + multiset{KeyAt(a, i, skeletonOf)}
  {
    hide SortKey;
    var ks := KeysOf(a, skeletonOf);
    var rest := a[..i] + a[i + 1..];
    forall k | 0 <= k < |rest| ensures (ks[..i] + ks[i + 1..])[k] == KeysOf(rest, skeletonOf)[k] {
      PreparedKeyOf(rest, k, a, if k < i then k else k + 1, skeletonOf);
    }
    assert ks[..i] + ks[i + 1..] == KeysOf(rest, skeletonOf);
    Removed(ks, i);
  }

  /**
   However the input is ordered, and however the sort breaks ties, the bytes
   hashed are the same.
   */
  lemma PreimageIsCanonical(
      domain: Text, digest: Text, a: seq<Binding>, b: seq<Binding>, skeletonOf: Text -> Option<Text>,
      sortedA: seq<Work>, sortedB: seq<Work>)
    requires multiset(a) == multiset(b)
    requires Sorted(sortedA) && multiset(sortedA) == multiset(Prepared(a, skeletonOf))
    requires Sorted(sortedB) && multiset(sortedB) == multiset(Prepared(b, skeletonOf))
    ensures Preimage(domain, digest, sortedA) == Preimage(domain, digest, sortedB)
  {
    hide Sorted, Ascending, Frames, AllFields;
    KeysRearranged(sortedA, Prepared(a, skeletonOf));
    KeysRearranged(sortedB, Prepared(b, skeletonOf));
    PreparedRearranged(a, b, skeletonOf);
    SortedKeysAscend(sortedA);
    SortedKeysAscend(sortedB);
    AscendingIsUnique(Keys(sortedA), Keys(sortedB));
    SameKeysSameFields(domain, digest, sortedA, sortedB);
  }

  /** Two sets of bindings hash the same bytes only if they agree, one for one, in everything the key covers. */
  lemma PreimageIsInjective(domain: Text, digest: Text, a: seq<Work>, b: seq<Work>)
    requires MeasuredInput(domain, digest, a) && MeasuredInput(domain, digest, b)
    requires Preimage(domain, digest, a) == Preimage(domain, digest, b)
    ensures |a| == |b|
    ensures forall i :: 0 <= i < |a| ==>
      && a[i].binding.moduleId == b[i].binding.moduleId && a[i].binding.namespaceId == b[i].binding.namespaceId
      && a[i].binding.spelling == b[i].binding.spelling && a[i].binding.bindingId == b[i].binding.bindingId
      && a[i].binding.targetId == b[i].binding.targetId
  {
    hide Preimage, ReadFrames, MeasuredInput;
    PreimageDecodes(domain, digest, a);
    PreimageDecodes(domain, digest, b);
    var frames := ReadFrames(Preimage(domain, digest, a)).value;
    forall i | 0 <= i < |a|
      ensures FramesOf(frames, 2 + 5 * i, a[i].binding) && FramesOf(frames, 2 + 5 * i, b[i].binding)
    {}
  }
}
