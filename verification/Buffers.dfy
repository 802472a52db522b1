/** The growing byte buffer every emitter appends to, little-endian words, and patches inside it. */
module Buffers {
  import Division

  type Octet = x: int | 0 <= x < 256 witness 0

  /** The low bytes of a word, least significant first. */
  function LittleEndian(value: nat, width: nat): (r: seq<Octet>)
    ensures |r| == width
  {
    if width == 0 then [] else [value % 256] + LittleEndian(value / 256, width - 1)
  }

  /** The word a run of bytes spells. */
  function FromBytes(bytes: seq<Octet>): nat {
    if bytes == [] then 0 else bytes[0] + 256 * FromBytes(bytes[1..])
  }

  function Pow256(width: nat): (r: nat)
    ensures r > 0
  {
    if width == 0 then 1 else 256 * Pow256(width - 1)
  }

  /** Writing a word keeps it up to the width written. */
  lemma {:induction false} LittleEndianRoundTrip(value: nat, width: nat)
    ensures FromBytes(LittleEndian(value, width)) == value % Pow256(width)
  {
    if width == 0 {
      assert value % 1 == 0;
    } else {
      LittleEndianRoundTrip(value / 256, width - 1);
      assert LittleEndian(value, width)[1..] == LittleEndian(value / 256, width - 1);
      ModSplits(value, Pow256(width - 1));
    }
  }

  lemma ModSplits(value: nat, p: nat)
    requires p > 0
    ensures value % (256 * p) == value % 256 + 256 * ((value / 256) % p)
  {
    var q, r := (value / 256) / p, (value / 256) % p;
    assert value / 256 == q * p + r;
    assert value == 256 * (value / 256) + value % 256;
    assert 0 <= value % 256 + 256 * r < 256 * p;
    assert value == (256 * p) * q + (value % 256 + 256 * r);
    QuotientIsUnique(value, 256 * p, q, value % 256 + 256 * r);
  }

  lemma QuotientIsUnique(value: nat, d: nat, q: nat, r: nat)
    requires 0 <= r < d && value == d * q + r
    ensures value % d == r && value / d == q
  {
    var q', r' := value / d, value % d;
    assert value == d * q' + r';
    assert (q - q') * d == r' - r;
    if q != q' { Division.NonzeroMultiple(q - q', d); }
  }

  /** Reading a word and writing it again gives the same bytes. */
  lemma {:induction false} WordRoundTrip(bytes: seq<Octet>)
    ensures LittleEndian(FromBytes(bytes), |bytes|) == bytes
  {
    if bytes != [] {
      WordRoundTrip(bytes[1..]);
      assert FromBytes(bytes) % 256 == bytes[0] && FromBytes(bytes) / 256 == FromBytes(bytes[1..]);
      assert [bytes[0]] + bytes[1..] == bytes;
    }
  }

  class Bytes {
    var data: seq<Octet>

    constructor ()
      ensures data == []
    {
      data := [];
    }

    method Byte(value: Octet)
      modifies this
      ensures data == old(data) + [value]
    {
      data := data + [value];
    }

    method U16(value: nat)
      modifies this
      ensures data == old(data) + LittleEndian(value, 2)
    {
      Byte(value % 256);
      Byte(value / 256 % 256);
      assert LittleEndian(value, 2) == [value % 256] + ([value / 256 % 256] + []);
    }

    method U32(value: nat)
      modifies this
      ensures data == old(data) + LittleEndian(value, 4)
    {
      U16(value);
      U16(Shifted(value, 2));
      LittleEndianSplits(value, 2, 2);
    }

    method U64(value: nat)
      modifies this
      ensures data == old(data) + LittleEndian(value, 8)
    {
      U32(value);
      U32(Shifted(value, 4));
      LittleEndianSplits(value, 4, 4);
    }

    /** Overwrites bytes already emitted; a patch that leaves the buffer is fatal. */
    method Patch(offset: nat, bytes: seq<Octet>) returns (ok: bool)
      modifies this
      ensures ok <==> offset + |bytes| <= |old(data)|
      ensures ok ==> data == old(data)[..offset] + bytes + old(data)[offset + |bytes|..]
      ensures !ok ==> data == old(data)
    {
      if offset > |data| || |data| - offset < |bytes| { return false; }
      var index := 0;
      while index < |bytes|
        invariant 0 <= index <= |bytes| && |data| == |old(data)|
        invariant forall k :: 0 <= k < |data| ==>
          data[k] == if offset <= k < offset + index then bytes[k - offset] else old(data)[k]
      {
        data := data[offset + index := bytes[index]];
        index := index + 1;
      }
      ok := true;
    }
  }

  /** A word shifted right by whole bytes. */
  function Shifted(value: nat, width: nat): nat {
    if width == 0 then value else Shifted(value / 256, width - 1)
  }

  /** A word's bytes are its low bytes followed by those of the word shifted past them. */
  lemma {:induction false} LittleEndianSplits(value: nat, low: nat, high: nat)
    ensures LittleEndian(value, low + high) == LittleEndian(value, low) + LittleEndian(Shifted(value, low), high)
  {
    if low > 0 {
      LittleEndianSplits(value / 256, low - 1, high);
    }
  }
}
