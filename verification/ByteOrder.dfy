/** Byte strings in the order `memcmp` and `strcmp` give them, and keys made of several fields. */
module ByteOrder {
  import opened Buffers

  type Text = seq<Octet>

  /** Strictly before: at the first difference the smaller byte, and a prefix before what extends it. */
  predicate Before(a: Text, b: Text) {
    if b == [] then false
    else if a == [] then true
    else if a[0] != b[0] then a[0] < b[0]
    else Before(a[1..], b[1..])
  }

  /** a and b agree up to place k, where a ends or has the smaller byte. */
  ghost predicate SmallerAt(a: Text, b: Text, k: nat) {
    && k <= |a| && k < |b| && a[..k] == b[..k]
    && (k == |a| || a[k] < b[k])
  }

  lemma SmallerStarts(a: Text, b: Text, k: nat)
    requires a != [] && SmallerAt(a, b, k)
    ensures k > 0 ==> a[0] == b[0]
  {
    if k > 0 { assert a[..k][0] == b[..k][0]; }
  }

  /** The order is decided at the first difference. */
  lemma {:induction false} BeforeIsFirstDifference(a: Text, b: Text)
    ensures Before(a, b) <==> exists k: nat :: SmallerAt(a, b, k)
  {
    if b == [] {
    } else if a == [] {
      assert SmallerAt(a, b, 0);
    } else if a[0] != b[0] {
      if a[0] < b[0] { assert SmallerAt(a, b, 0); }
      forall k: nat | SmallerAt(a, b, k) ensures k == 0 { SmallerStarts(a, b, k); }
    } else {
      BeforeIsFirstDifference(a[1..], b[1..]);
      forall k: nat | SmallerAt(a[1..], b[1..], k) ensures SmallerAt(a, b, k + 1) {
        assert a[..k + 1] == [a[0]] + a[1..][..k] && b[..k + 1] == [b[0]] + b[1..][..k];
      }
      forall k: nat | SmallerAt(a, b, k) ensures k > 0 && SmallerAt(a[1..], b[1..], k - 1) {
        assert k > 0;
        assert a[1..][..k - 1] == a[..k][1..] && b[1..][..k - 1] == b[..k][1..];
      }
    }
  }

  lemma {:induction false} BeforeTotal(a: Text, b: Text)
    ensures a != b ==> Before(a, b) != Before(b, a)
    ensures !Before(a, a)
  {
    if a != [] && b != [] && a[0] == b[0] {
      BeforeTotal(a[1..], b[1..]);
      assert a == [a[0]] + a[1..] && b == [b[0]] + b[1..];
    }
    if a != [] { BeforeTotal(a[1..], a[1..]); }
  }

  lemma {:induction false} BeforeTransitive(a: Text, b: Text, c: Text)
    requires Before(a, b) && Before(b, c)
    ensures Before(a, c)
  {
    if a != [] && a[0] == b[0] && b[0] == c[0] {
      BeforeTransitive(a[1..], b[1..], c[1..]);
    }
  }

  /** A key compared field by field; numbers are fields too. */
  datatype Field = Bytes(bytes: Text) | Number(value: nat)

  predicate FieldBefore(a: Field, b: Field) {
    match (a, b)
    case (Bytes(s), Bytes(t)) => Before(s, t)
    case (Number(m), Number(n)) => m < n
    case (Bytes(_), Number(_)) => true
    case (Number(_), Bytes(_)) => false
  }

  type Key = seq<Field>

  /** Not after: the first field that differs decides. */
  predicate AtMost(a: Key, b: Key) {
    if a == [] then true
    else if b == [] then false
    else if a[0] != b[0] then FieldBefore(a[0], b[0])
    else AtMost(a[1..], b[1..])
  }

  /** From the k-th field on, that field decides unless it is the same in both. */
  lemma AtMostAt(a: Key, b: Key, k: nat)
    requires k < |a| == |b|
    ensures AtMost(a[k..], b[k..]) <==> if a[k] != b[k] then FieldBefore(a[k], b[k]) else AtMost(a[k + 1..], b[k + 1..])
  {
    assert a[k..][1..] == a[k + 1..] && b[k..][1..] == b[k + 1..];
  }

  lemma FieldTotal(a: Field, b: Field)
    ensures a != b ==> FieldBefore(a, b) != FieldBefore(b, a)
    ensures !FieldBefore(a, a)
  {
    if a.Bytes? && b.Bytes? { BeforeTotal(a.bytes, b.bytes); }
    if a.Bytes? { BeforeTotal(a.bytes, a.bytes); }
  }

  lemma FieldTransitive(a: Field, b: Field, c: Field)
    requires FieldBefore(a, b) && FieldBefore(b, c)
    ensures FieldBefore(a, c)
  {
    if a.Bytes? && b.Bytes? && c.Bytes? { BeforeTransitive(a.bytes, b.bytes, c.bytes); }
  }

  lemma {:induction false} AtMostTotal(a: Key, b: Key)
    ensures AtMost(a, b) || AtMost(b, a)
    ensures AtMost(a, b) && AtMost(b, a) ==> a == b
    ensures AtMost(a, a)
  {
    if a != [] && b != [] {
      FieldTotal(a[0], b[0]);
      if a[0] == b[0] {
        AtMostTotal(a[1..], b[1..]);
        assert a == [a[0]] + a[1..] && b == [b[0]] + b[1..];
      }
    }
    if a != [] { AtMostTotal(a[1..], a[1..]); }
  }

  lemma {:induction false} AtMostTransitive(a: Key, b: Key, c: Key)
    requires AtMost(a, b) && AtMost(b, c)
    ensures AtMost(a, c)
  {
    if a != [] {
      FieldTotal(a[0], b[0]);
      FieldTotal(b[0], c[0]);
      if a[0] == b[0] && b[0] == c[0] {
        AtMostTransitive(a[1..], b[1..], c[1..]);
      } else if a[0] != b[0] && b[0] != c[0] {
        FieldTransitive(a[0], b[0], c[0]);
      }
    }
  }

  /** Keys that share their ends' leading fields share them in between. */
  lemma {:induction false} PrefixBetween(a: Key, b: Key, c: Key, n: nat)
    requires AtMost(a, b) && AtMost(b, c)
    requires n <= |a| && n <= |c| && a[..n] == c[..n]
    ensures n <= |b| && b[..n] == a[..n]
  {
    if n > 0 {
      assert a[0] == a[..n][0] && c[0] == c[..n][0];
      FieldTotal(a[0], b[0]);
      assert a[1..][..n - 1] == a[..n][1..] && c[1..][..n - 1] == c[..n][1..];
      PrefixBetween(a[1..], b[1..], c[1..], n - 1);
      assert b[..n] == [b[0]] + b[1..][..n - 1] && a[..n] == [a[0]] + a[1..][..n - 1];
    }
  }

  /** What decides the order of two keys does so no sooner in their leading fields. */
  lemma {:induction false} LeadingAtMost(a: Key, b: Key, n: nat)
    requires AtMost(a, b) && n <= |a| && n <= |b|
    ensures AtMost(a[..n], b[..n])
  {
    if n > 0 && a[0] == b[0] {
      LeadingAtMost(a[1..], b[1..], n - 1);
      assert a[..n][1..] == a[1..][..n - 1] && b[..n][1..] == b[1..][..n - 1];
    }
  }

  predicate Ascending(keys: seq<Key>) {
    forall i, j :: 0 <= i <= j < |keys| ==> AtMost(keys[i], keys[j])
  }

  lemma FirstIsLeast(a: seq<Key>, k: Key)
    requires Ascending(a) && k in multiset(a)
    ensures a != [] && AtMost(a[0], k)
  {
    hide AtMost;
    assert k in a;
    var i :| 0 <= i < |a| && a[i] == k;
    assert AtMost(a[0], a[i]);
  }

  lemma TailAscends(a: seq<Key>)
    requires a != [] && Ascending(a)
    ensures Ascending(a[1..])
  {
    hide AtMost;
    var t := a[1..];
    forall i, j | 0 <= i <= j < |t| ensures AtMost(t[i], t[j]) {
      assert t[i] == a[i + 1] && t[j] == a[j + 1];
    }
  }

  lemma TailMultiset(a: seq<Key>)
    requires a != []
    ensures multiset(a[1..]) == multiset(a) - multiset{a[0]}
  {
    assert a == [a[0]] + a[1..];
  }

  /** Keys in order are determined by which keys they are. */
  lemma {:induction false} AscendingIsUnique(a: seq<Key>, b: seq<Key>)
    requires Ascending(a) && Ascending(b) && multiset(a) == multiset(b)
    ensures a == b
  {
    hide AtMost, Ascending;
    assert |a| == |multiset(a)| && |b| == |multiset(b)|;
    if a != [] {
      assert a[0] in multiset(b);
      FirstIsLeast(b, a[0]);
      assert b[0] in multiset(a);
      FirstIsLeast(a, b[0]);
      AtMostTotal(a[0], b[0]);
      TailAscends(a);
      TailAscends(b);
      TailMultiset(a);
      TailMultiset(b);
      AscendingIsUnique(a[1..], b[1..]);
      assert a == [a[0]] + a[1..] && b == [b[0]] + b[1..];
    }
  }
}
