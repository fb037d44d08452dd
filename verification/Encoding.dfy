/**
 The bytes of a message, as the encoder writes them; None where it reports an error
 whatever the room in the stream.
 */
module Encoding {
  import opened Common
  import opened Varint
  import opened Schema

  const WT_VARINT: nat := 0
  const WT_64BIT: nat := 1
  const WT_STRING: nat := 2
  const WT_32BIT: nat := 5

  function WireType(t: LType): nat {
    match t
    case VarintT => WT_VARINT
    case UvarintT => WT_VARINT
    case SvarintT => WT_VARINT
    case Fixed32T => WT_32BIT
    case Fixed64T => WT_64BIT
    case _ => WT_STRING
  }

  function Tag(wt: nat, tag: nat): seq<byte> {
    Encode(8 * tag + wt)
  }

  /** A length-delimited record. */
  function Delimited(b: seq<byte>): (r: seq<byte>)
    ensures |r| > |b|
  {
    Encode(|b|) + b
  }

  /** n bytes, least significant first. */
  function Little(v: nat, n: nat): (r: seq<byte>)
    ensures |r| == n
  {
    if n == 0 then [] else [v % 0x100] + Little(v / 0x100, n - 1)
  }

  function FromLittle(b: seq<byte>): nat {
    if b == [] then 0 else b[0] + 0x100 * FromLittle(b[1..])
  }

  function Power256(n: nat): (p: nat)
    ensures p > 0
  {
    if n == 0 then 1 else 0x100 * Power256(n - 1)
  }

  lemma {:induction false} LittleRoundTrip(v: nat, n: nat)
    requires v < Power256(n)
    ensures FromLittle(Little(v, n)) == v
  {
    if n > 0 {
      LittleRoundTrip(v / 0x100, n - 1);
      assert Little(v, n)[1..] == Little(v / 0x100, n - 1);
    }
  }

  /** The bytes of a fixed-width number, least significant first. */
  lemma {:induction false} LittleDigits(v: nat, n: nat, k: nat)
    requires k < n
    ensures Little(v, n)[k] == v / Power256(k) % 0x100
    decreases n
  {
    if k > 0 {
      LittleDigits(v / 0x100, n - 1, k - 1);
      DivideByBytes(v, Power256(k - 1));
    }
  }

  lemma DivideByBytes(v: nat, p: nat)
    requires p > 0
    ensures v / 0x100 / p == v / (0x100 * p)
  {
    var q, r := v / 0x100 / p, v % 0x100 + 0x100 * (v / 0x100 % p);
    assert v == (0x100 * p) * q + r;
    assert 0 <= r < 0x100 * p;
    QuotientIs(v, 0x100 * p, q, r);
  }

  /** Every record begins with its tag, in which the field number stands above three bits
      of wire type: 0 for a varint, 1 for eight bytes, 5 for four, 2 for a length and what
      it counts. */
  lemma RecordBegins(c: Config, f: Field, v: Value)
    requires ValueTyped(c, f, v) && EncodeTagged(c, f, v).Some? && EncodeValue(c, f, v).Some?
    ensures var e, p := EncodeTagged(c, f, v).value, EncodeValue(c, f, v).value;
            match f.ltype
            case Fixed32T => e == Encode(f.tag * 8 + 5) + p && |p| == 4
            case Fixed64T => e == Encode(f.tag * 8 + 1) + p && |p| == 8
            case VarintT => e == Encode(f.tag * 8) + p
            case UvarintT => e == Encode(f.tag * 8) + p
            case SvarintT => e == Encode(f.tag * 8) + p
            case _ => e == Encode(f.tag * 8 + 2) + p && exists body :: p == Delimited(body)
  {
    hide Encode, Little;
  }

  lemma WordsInBytes()
    ensures Power256(4) == WORD32 && Power256(8) == WORD64
  {
    assert Power256(2) == 0x1_0000;
    assert Power256(3) == 0x100_0000;
    assert Power256(6) == 0x1_0000_0000_0000;
    assert Power256(7) == 0x100_0000_0000_0000;
  }

  /** The bytes before the first zero. */
  function CString(b: seq<byte>): (r: seq<byte>)
    ensures r <= b && 0 !in r
    ensures |r| < |b| ==> b[|r|] == 0
  {
    if b == [] || b[0] == 0 then [] else [b[0]] + CString(b[1..])
  }

  /** pb_check_proto3_default_value on a field that is not an embedded message. */
  predicate IsZero(f: Field, v: Value)
    requires !f.ltype.SubmessageT? && if Packable(f.ltype) then v.Int? else v.Raw?
  {
    if Packable(f.ltype) then f.dataSize == 0 || v.i == 0
    else if f.ltype.BytesT? then v.b == []
    else if f.ltype.StringT? then CString(v.b) == []
    else f.dataSize == 0
  }

  // ----- values, fields, messages --------------------------------------------

  function EncodeValue(c: Config, f: Field, v: Value): Option<seq<byte>>
    requires ValueTyped(c, f, v)
    decreases f, 0, 0
  {
    match f.ltype
    case VarintT => if IntegerSize(f.dataSize) then Some(Encode(ToWord(v.i))) else None
    case UvarintT => if IntegerSize(f.dataSize) then Some(Encode(v.i)) else None
    case SvarintT => if IntegerSize(f.dataSize) then Some(Encode(ZigZag(v.i))) else None
    case Fixed32T => Some(Little(v.i, 4))
    case Fixed64T => Some(Little(v.i, 8))
    case BytesT => if |v.b| + c.sizeBytes > f.dataSize then None else Some(Delimited(v.b))
    case StringT => Some(Delimited(CString(v.b)))
    case FixedBytesT => Some(Delimited(v.b))
    case SubmessageT(sub) =>
      var body := EncodeMessage(c, sub, v.slots);
      if body.None? then None else Some(Delimited(body.value))
  }

  /** One value under the field's own tag. */
  function EncodeTagged(c: Config, f: Field, v: Value): Option<seq<byte>>
    requires ValueTyped(c, f, v)
    decreases f, 1, 0
  {
    var e := EncodeValue(c, f, v);
    if e.None? then None else Some(Tag(WireType(f.ltype), f.tag) + e.value)
  }

  /** The values of an array one after the other, each under the field's tag or not. */
  function EncodeItems(c: Config, f: Field, items: seq<Value>, tagged: bool): Option<seq<byte>>
    requires forall k :: 0 <= k < |items| ==> ValueTyped(c, f, items[k])
    decreases f, 2, |items|
  {
    if items == [] then Some([])
    else
      var e := if tagged then EncodeTagged(c, f, items[0]) else EncodeValue(c, f, items[0]);
      var rest := EncodeItems(c, f, items[1..], tagged);
      if e.None? || rest.None? then None else Some(e.value + rest.value)
  }

  function EncodeArray(c: Config, f: Field, items: seq<Value>): Option<seq<byte>>
    requires forall k :: 0 <= k < |items| ==> ValueTyped(c, f, items[k])
    decreases f, 3, 0
  {
    if items == [] then Some([])
    else if |items| > f.arraySize then None
    else
      var body := EncodeItems(c, f, items, !Packable(f.ltype));
      if body.None? || !Packable(f.ltype) then body
      else Some(Tag(WT_STRING, f.tag) + Delimited(body.value))
  }

  function EncodeField(c: Config, f: Field, s: Slot): Option<seq<byte>>
    requires SlotTyped(c, f, s)
    decreases f, 4, 0
  {
    match f.htype
    case Required => EncodeTagged(c, f, s.v)
    case Optional(hasFlag) =>
      assert ValueTyped(c, f, s.v);
      var present := if hasFlag then s.has else !IsZero(f, s.v);
      if present then EncodeTagged(c, f, s.v) else Some([])
    case Repeated => EncodeArray(c, f, s.items)
    case Oneof(_) => if s.member.Some? then EncodeTagged(c, f, s.member.value) else Some([])
  }

  function EncodeFrom(c: Config, m: Message, slots: seq<Slot>, i: nat): Option<seq<byte>>
    requires Typed(c, m, slots) && i <= |slots|
    decreases m, |slots| - i, 0
  {
    if i == |slots| then Some([])
    else
      var e := EncodeField(c, m.fields[i], slots[i]);
      var rest := EncodeFrom(c, m, slots, i + 1);
      if e.None? || rest.None? then None else Some(e.value + rest.value)
  }

  function EncodeMessage(c: Config, m: Message, slots: seq<Slot>): Option<seq<byte>>
    requires Typed(c, m, slots)
    decreases m, |slots| + 1, 0
  {
    EncodeFrom(c, m, slots, 0)
  }
}
