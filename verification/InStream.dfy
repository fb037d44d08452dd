/**
 The input stream over a buffer, with the decoders of varints and raw bytes.
 */
module InStream {
  import opened Common
  import opened Varint
  import opened Encoding
  import opened Decoding

  // ----- how the varint loops build their result -----------------------------

  function Times(weight: nat, x: nat): nat {
    weight * x
  }

  /** A varint of which k bytes have been read, worth acc, and whose next group counts
      weight times. */
  function Continued(p: Option<(nat, nat)>, acc: nat, weight: nat, k: nat): Option<(nat, nat)> {
    if p.None? then None else Some((acc + Times(weight, p.value.0), k + p.value.1))
  }

  lemma NextGroup(b: seq<byte>, max: nat, acc: nat, weight: nat, k: nat)
    requires b != [] && max > 0 && acc < weight
    ensures b[0] < 0x80 ==>
      Continued(Parse(b, max), acc, weight, k) == Some((acc + Times(weight, b[0]), k + 1))
    ensures b[0] >= 0x80 ==>
      Continued(Parse(b, max), acc, weight, k)
        == Continued(Parse(b[1..], max - 1), acc + Times(weight, b[0] % 0x80), weight * 0x80, k + 1)
    ensures acc + Times(weight, b[0] % 0x80) < weight * 0x80
  {
    hide Times;
    Below(acc, weight, b[0] % 0x80);
    if b[0] >= 0x80 && Parse(b[1..], max - 1).Some? {
      Distribute(weight, b[0] % 0x80, Parse(b[1..], max - 1).value.0);
    }
  }

  lemma Below(acc: nat, weight: nat, x: nat)
    requires acc < weight && x < 0x80
    ensures acc + Times(weight, x) < weight * 0x80
  {
    assert weight * (x + 1) <= weight * 0x80;
  }

  lemma Distribute(w: nat, x: nat, v: nat)
    ensures Times(w, x + 0x80 * v) == Times(w, x) + Times(w * 0x80, v)
  {
    assert w * (0x80 * v) == (w * 0x80) * v;
    assert w * (x + 0x80 * v) == w * x + w * (0x80 * v);
  }

  lemma FirstGroup(p: Option<(nat, nat)>, x: nat)
    ensures Continued(p, 0, 1, 0) == p && Times(1, x) == x
  {}

  /** Or-ing a group into a 32-bit or 64-bit result, whose bits are all lower. */
  function Or32(result: nat, weight: nat, x: nat): nat {
    (result + Times(weight, x)) % WORD32
  }

  function Or64(result: nat, weight: nat, x: nat): nat {
    (result + Times(weight, x)) % WORD64
  }

  lemma OrTruncates(acc: nat, weight: nat, x: nat)
    ensures Or32(acc % WORD32, weight, x) == (acc + Times(weight, x)) % WORD32 <= acc + Times(weight, x)
    ensures Or64(acc % WORD64, weight, x) == (acc + Times(weight, x)) % WORD64 <= acc + Times(weight, x)
  {
    hide Times;
    Remainders(acc, Times(weight, x));
  }

  lemma Remainders(a: nat, x: nat)
    ensures (a % WORD32 + x) % WORD32 == (a + x) % WORD32 <= a + x
    ensures (a % WORD64 + x) % WORD64 == (a + x) % WORD64 <= a + x
  {
    Remainder32(a, x);
    Remainder64(a, x);
  }

  lemma Remainder32(a: nat, x: nat)
    ensures (a % WORD32 + x) % WORD32 == (a + x) % WORD32 <= a + x
  {
    var r := a % WORD32 + x;
    assert (a + x) / WORD32 == a / WORD32 + r / WORD32;
  }

  lemma Remainder64(a: nat, x: nat)
    ensures (a % WORD64 + x) % WORD64 == (a + x) % WORD64 <= a + x
  {
    var r := a % WORD64 + x;
    assert (a + x) / WORD64 == a / WORD64 + r / WORD64;
  }

  lemma Parsed(b: seq<byte>)
    ensures Decode32(b).Some? <==> Parse(b, 5).Some?
    ensures Decode64(b).Some? <==> Parse(b, 10).Some?
    ensures Parse(b, 5).Some? ==> Decode32(b) == Some((Parse(b, 5).value.0 % WORD32, Parse(b, 5).value.1))
    ensures Parse(b, 10).Some? ==> Decode64(b) == Some((Parse(b, 10).value.0 % WORD64, Parse(b, 10).value.1))
  {
    hide Parse;
  }

  class IStream {
    const data: seq<byte>
    var pos: nat
    var bytesLeft: nat

    ghost predicate Valid()
      reads this
    {
      pos + bytesLeft <= |data|
    }

    ghost function Rest(): seq<byte>
      requires Valid()
      reads this
    {
      data[pos..pos + bytesLeft]
    }

    ghost function End(): nat
      reads this
    {
      pos + bytesLeft
    }

    constructor (data: seq<byte>, pos: nat, bytesLeft: nat)
      requires pos + bytesLeft <= |data|
      ensures Valid() && this.data == data && this.pos == pos && this.bytesLeft == bytesLeft
    {
      this.data, this.pos, this.bytesLeft := data, pos, bytesLeft;
    }

    /** pb_readbyte. */
    method ReadByte() returns (b: Option<byte>)
      requires Valid()
      modifies this
      ensures Valid() && End() == old(End())
      ensures old(Rest()) == if b.None? then [] else [b.value] + Rest()
      ensures b.None? ==> Rest() == []
    {
      if bytesLeft == 0 {
        return None;
      }
      b := Some(data[pos]);
      pos := pos + 1;
      bytesLeft := bytesLeft - 1;
    }

    /** pb_read; nothing is consumed when there is not enough. */
    method ReadBytes(n: nat) returns (b: Option<seq<byte>>)
      requires Valid()
      modifies this
      ensures Valid() && End() == old(End())
      ensures var r := Read(old(Rest()), n);
        if r.None? then b.None? && Rest() == old(Rest()) else b == Some(r.value.0) && Rest() == r.value.1
    {
      if bytesLeft < n {
        return None;
      }
      assert data[pos..pos + bytesLeft] == data[pos..pos + n] + data[pos + n..pos + bytesLeft];
      b := Some(data[pos..pos + n]);
      pos := pos + n;
      bytesLeft := bytesLeft - n;
    }

    /** The next byte of a varint b of which k bytes have been read. */
    method ReadGroup(ghost b: seq<byte>, ghost max: nat, ghost acc: nat, ghost weight: nat, ghost k: nat)
      returns (group: Option<byte>)
      requires Valid() && k <= |b| && Rest() == b[k..] && k < max && acc < weight
      requires Parse(b, max) == Continued(Parse(b[k..], max - k), acc, weight, k)
      modifies this
      ensures Valid() && End() == old(End())
      ensures group.None? ==> Parse(b, max).None? && k == |b| && Rest() == []
      ensures group.Some? ==> k < |b| && Rest() == b[k + 1..]
      ensures group.Some? ==>
        var next := acc + Times(weight, group.value % 0x80);
        && next < weight * 0x80
        && (group.value >= 0x80 ==>
          Parse(b, max) == Continued(Parse(b[k + 1..], max - (k + 1)), next, weight * 0x80, k + 1))
        && (group.value < 0x80 ==> Parse(b, max) == Some((next, k + 1)))
    {
      hide Parse, Times, Continued;
      group := ReadByte();
      if group.None? {
        NoneLeft(b[k..], max - k, acc, weight, k);
      } else {
        NextGroup(b[k..], max - k, acc, weight, k);
        assert b[k..][1..] == b[k + 1..];
      }
    }

    /** pb_decode_varint32. The bits of a group are above those of the result so far, so
        adding them is or-ing them. */
    method DecodeVarint32() returns (r: Option<nat>)
      requires Valid()
      modifies this
      ensures Valid() && End() == old(End())
      ensures var d := Decode32(old(Rest()));
        && (r.None? <==> d.None?)
        && (r.Some? ==> r.value == d.value.0 && Rest() == old(Rest())[d.value.1..])
        && (r.None? ==> |Rest()| == if |old(Rest())| <= 5 then 0 else |old(Rest())| - 5)
    {
      hide Parse, Times, Or32, Continued, Decode32;
      ghost var b := Rest();
      Parsed(b);
      assert b[0..] == b;
      FirstGroup(Parse(b, 5), 0);
      var group := ReadGroup(b, 5, 0, 1, 0);
      if group.None? {
        return None;
      }
      FirstGroup(None, group.value % 0x80);
      var result: nat := group.value % 0x80;
      if group.value < 0x80 {
        return Some(result);
      }
      ghost var acc: nat := result;
      ghost var k := 1;
      var bitpos, weight: nat := 7, 0x80;
      while group.value >= 0x80
        invariant Valid() && End() == old(End()) && group.Some?
        invariant bitpos == 7 * k && 1 <= k <= 5 && k <= |b| && Rest() == b[k..]
        invariant result < weight && acc < weight && result == acc % WORD32
        invariant group.value >= 0x80 ==> Parse(b, 5) == Continued(Parse(b[k..], 5 - k), acc, weight, k)
        invariant group.value < 0x80 ==> Parse(b, 5) == Some((acc, k))
        decreases 5 - k, group.value >= 0x80
      {
        if bitpos >= 32 {
          NoneLeft(b[k..], 0, acc, weight, k);
          return None;
        }
        group := ReadGroup(b, 5, acc, weight, k);
        if group.None? {
          return None;
        }
        OrTruncates(acc, weight, group.value % 0x80);
        result := Or32(result, weight, group.value % 0x80);
        acc := acc + Times(weight, group.value % 0x80);
        weight := weight * 0x80;
        bitpos := bitpos + 7;
        k := k + 1;
      }
      return Some(result);
    }

    /** pb_decode_varint. */
    method DecodeVarint() returns (r: Option<nat>)
      requires Valid()
      modifies this
      ensures Valid() && End() == old(End())
      ensures var d := Decode64(old(Rest()));
        && (r.None? <==> d.None?)
        && (r.Some? ==> r.value == d.value.0 && Rest() == old(Rest())[d.value.1..])
    {
      hide Parse, Times, Or64, Continued, Decode64;
      ghost var b := Rest();
      Parsed(b);
      ghost var acc: nat := 0;
      ghost var k := 0;
      var bitpos, result: nat, weight: nat := 0, 0, 1;
      var more := true;
      FirstGroup(Parse(b, 10), 0);
      assert b[0..] == b;
      while more
        invariant Valid() && End() == old(End())
        invariant bitpos == 7 * k && k <= 10 && k <= |b| && Rest() == b[k..]
        invariant result < weight && acc < weight && result == acc % WORD64
        invariant more ==> Parse(b, 10) == Continued(Parse(b[k..], 10 - k), acc, weight, k)
        invariant !more ==> Parse(b, 10) == Some((acc, k))
        decreases 10 - k, more
      {
        if bitpos >= 64 {
          NoneLeft(b[k..], 0, acc, weight, k);
          return None;
        }
        var group := ReadGroup(b, 10, acc, weight, k);
        if group.None? {
          return None;
        }
        OrTruncates(acc, weight, group.value % 0x80);
        result := Or64(result, weight, group.value % 0x80);
        acc := acc + Times(weight, group.value % 0x80);
        weight := weight * 0x80;
        bitpos := bitpos + 7;
        k := k + 1;
        more := group.value >= 0x80;
      }
      return Some(result);
    }
  }

  /** No byte left, or no group allowed any more: no varint. */
  lemma NoneLeft(b: seq<byte>, max: nat, acc: nat, weight: nat, k: nat)
    requires b == [] || max == 0
    ensures Parse(b, max).None? && Continued(Parse(b, max), acc, weight, k).None?
  {}
}
