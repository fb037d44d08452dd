/**
 What the decoder makes of a byte string: the new contents and the bytes left over, or
 None where it reports an error.
 */
module Decoding {
  import opened Common
  import opened Varint
  import opened Schema
  import opened Encoding

  // ----- scalars -------------------------------------------------------------

  /** The number a 64-bit varint stands for in a field; values of fields up to four
      bytes are first cut to 32 bits. */
  function FromVarint(f: Field, v: nat): (r: Option<int>)
    requires v < WORD64
    ensures r.Some? && (f.ltype.VarintT? || f.ltype.SvarintT?) ==> FitsSigned(r.value, f.dataSize)
    ensures r.Some? && f.ltype.UvarintT? ==> FitsUnsigned(r.value, f.dataSize)
  {
    match f.ltype
    case VarintT =>
      var s := if f.dataSize == 8 then Signed(v, SIGN64) else Signed(v % WORD32, 0x8000_0000);
      if FitsSigned(s, f.dataSize) then Some(s) else None
    case UvarintT => if FitsUnsigned(v, f.dataSize) then Some(v) else None
    case SvarintT => if FitsSigned(UnZigZag(v), f.dataSize) then Some(UnZigZag(v)) else None
    case _ => None
  }

  /** The next n bytes and what follows them. */
  function Read(b: seq<byte>, n: nat): (r: Option<(seq<byte>, seq<byte>)>)
    ensures r.Some? ==> |r.value.0| == n && b == r.value.0 + r.value.1
  {
    if |b| < n then None else Some((b[..n], b[n..]))
  }

  /** A length-delimited record and what follows it. */
  function Substream(b: seq<byte>): (r: Option<(seq<byte>, seq<byte>)>)
    ensures r.Some? ==> |r.value.0| + |r.value.1| < |b|
  {
    var len := Decode32(b);
    if len.None? then None else Read(b[len.value.1..], len.value.0)
  }

  lemma FromLittleBound(b: seq<byte>)
    ensures FromLittle(b) < Power256(|b|)
  {
    if b != [] {
      FromLittleBound(b[1..]);
    }
  }

  function Fixed(b: seq<byte>, n: nat): (r: Option<(Value, seq<byte>)>)
    requires n == 4 || n == 8
    ensures r.Some? ==> |r.value.1| < |b| && r.value.0.Int? && FitsUnsigned(r.value.0.i, n)
  {
    var p := Read(b, n);
    if p.None? then None
    else
      FromLittleBound(p.value.0);
      WordsInBytes();
      Some((Int(FromLittle(p.value.0)), p.value.1))
  }

  function Skip(wt: nat, b: seq<byte>): (r: Option<seq<byte>>)
    ensures r.Some? ==> |r.value| <= |b|
  {
    if wt == WT_VARINT then
      var p := Parse(b, |b|);
      if p.None? then None else Some(b[p.value.1..])
    else if wt == WT_64BIT || wt == WT_32BIT then
      var p := Read(b, if wt == WT_64BIT then 8 else 4);
      if p.None? then None else Some(p.value.1)
    else if wt == WT_STRING then
      var p := Substream(b);
      if p.None? then None else Some(p.value.1)
    else None
  }

  // ----- tags ----------------------------------------------------------------

  /** What pb_decode_tag finds: the end of the message (the input ran out, or a zero),
      an overlong number, or a tag. */
  datatype Head = Eof(rest: seq<byte>) | Overlong | Tagged(tag: nat, wt: nat, rest: seq<byte>)

  function DecodeTag(b: seq<byte>): (h: Head)
    ensures h.Tagged? ==> |h.rest| < |b|
  {
    var p := Decode32(b);
    if p.None? then if |b| <= 5 then Eof([]) else Overlong
    else
      var (v, n) := p.value;
      if v == 0 then Eof(b[n..]) else Tagged(v / 8, v % 8, b[n..])
  }

  /** The field with this tag, or the number of fields. */
  function Lookup(m: Message, tag: nat): (i: nat)
    ensures i <= |m.fields| && (i < |m.fields| ==> m.fields[i].tag == tag)
    ensures forall j :: 0 <= j < i ==> m.fields[j].tag != tag
  {
    LookupFrom(m, tag, 0)
  }

  function LookupFrom(m: Message, tag: nat, i: nat): (k: nat)
    requires i <= |m.fields|
    ensures i <= k <= |m.fields| && (k < |m.fields| ==> m.fields[k].tag == tag)
    ensures forall j :: i <= j < k ==> m.fields[j].tag != tag
    decreases |m.fields| - i
  {
    if i == |m.fields| || m.fields[i].tag == tag then i else LookupFrom(m, tag, i + 1)
  }

  // ----- values and fields ---------------------------------------------------

  /** The struct an embedded message is decoded into when its memory is reset first. */
  function Fresh(f: Field): seq<Slot> {
    if f.ltype.SubmessageT? then Defaults(f.ltype.sub) else []
  }

  function DecodeValue(c: Config, f: Field, base: seq<Slot>, b: seq<byte>): (r: Option<(Value, seq<byte>)>)
    requires FieldWellFormed(c, f)
    requires f.ltype.SubmessageT? ==> Typed(c, f.ltype.sub, base)
    ensures r.Some? ==> |r.value.1| < |b| && ValueTyped(c, f, r.value.0)
    decreases f, 0, 0
  {
    if f.ltype.Fixed32T? then Fixed(b, 4)
    else if f.ltype.Fixed64T? then Fixed(b, 8)
    else if Packable(f.ltype) then
      var p := Decode64(b);
      if p.None? then None
      else
        var i := FromVarint(f, p.value.0);
        if i.None? then None else Some((Int(i.value), b[p.value.1..]))
    else
      var p := Substream(b);
      if p.None? then None
      else
        var (body, rest) := p.value;
        match f.ltype
        case BytesT => if |body| > c.sizeMax || |body| + c.sizeBytes > f.dataSize then None else Some((Raw(body), rest))
        case StringT => if |body| + 1 > f.dataSize then None else Some((Raw(body), rest))
        case FixedBytesT =>
          if |body| > c.sizeMax then None
          else if body == [] then Some((Zero(f), rest))
          else if |body| != f.dataSize then None
          else Some((Raw(body), rest))
        case SubmessageT(sub) =>
          var r := DecodeInto(c, sub, base, body);
          if r.None? then None else Some((Struct(r.value), rest))
  }

  /** A packed array: items up to the end of the record, all of which must fit. */
  function DecodePacked(c: Config, f: Field, items: seq<Value>, b: seq<byte>): (r: Option<seq<Value>>)
    requires FieldWellFormed(c, f) && Packable(f.ltype)
    requires forall k :: 0 <= k < |items| ==> ValueTyped(c, f, items[k])
    ensures r.Some? ==> forall k :: 0 <= k < |r.value| ==> ValueTyped(c, f, r.value[k])
    decreases f, 1, |b|
  {
    if b == [] then Some(items)
    else if |items| >= f.arraySize then None
    else
      var p := DecodeValue(c, f, [], b);
      if p.None? then None else DecodePacked(c, f, items + [p.value.0], p.value.1)
  }

  /** A value decoded over what its memory holds, or over reset memory. */
  function DecodeOver(c: Config, f: Field, v: Value, b: seq<byte>): (r: Option<(Value, seq<byte>)>)
    requires FieldWellFormed(c, f) && ValueTyped(c, f, v)
    ensures r.Some? ==> |r.value.1| < |b| && ValueTyped(c, f, r.value.0)
    decreases f, 1, 0
  {
    DecodeValue(c, f, if f.ltype.SubmessageT? then v.slots else [], b)
  }

  function DecodeFresh(c: Config, f: Field, b: seq<byte>): (r: Option<(Value, seq<byte>)>)
    requires FieldWellFormed(c, f)
    ensures r.Some? ==> |r.value.1| < |b| && ValueTyped(c, f, r.value.0)
    decreases f, 1, 0
  {
    FreshTyped(c, f);
    DecodeValue(c, f, Fresh(f), b)
  }

  function DecodeArray(c: Config, f: Field, items: seq<Value>, wt: nat,
                       b: seq<byte>): (r: Option<(seq<Value>, seq<byte>)>)
    requires FieldWellFormed(c, f) && (forall k :: 0 <= k < |items| ==> ValueTyped(c, f, items[k]))
    ensures r.Some? ==> |r.value.1| < |b| && forall k :: 0 <= k < |r.value.0| ==> ValueTyped(c, f, r.value.0[k])
    decreases f, 2, |b|
  {
    if wt == WT_STRING && Packable(f.ltype) then
      var p := Substream(b);
      if p.None? then None
      else
        var all := DecodePacked(c, f, items, p.value.0);
        if all.None? then None else Some((all.value, p.value.1))
    else if |items| >= f.arraySize then None
    else
      var p := DecodeFresh(c, f, b);
      if p.None? then None else Some((items + [p.value.0], p.value.1))
  }

  /** One field of a struct. */
  function DecodeSlot(c: Config, f: Field, s: Slot, wt: nat, b: seq<byte>): (r: Option<(Slot, seq<byte>)>)
    requires FieldWellFormed(c, f) && SlotTyped(c, f, s)
    ensures r.Some? ==> |r.value.1| < |b| && SlotTyped(c, f, r.value.0)
    decreases f, 3, 0
  {
    match f.htype
    case Required =>
      var p := DecodeOver(c, f, s.v, b);
      if p.None? then None else Some((Single(p.value.0), p.value.1))
    case Optional(hasFlag) =>
      var p := DecodeOver(c, f, s.v, b);
      if p.None? then None else Some((if hasFlag then Maybe(true, p.value.0) else Single(p.value.0), p.value.1))
    case Repeated =>
      var p := DecodeArray(c, f, s.items, wt, b);
      if p.None? then None else Some((Many(p.value.0), p.value.1))
    case Oneof(_) =>
      var p := DecodeFresh(c, f, b);
      if p.None? then None else Some((Choice(Some(p.value.0)), p.value.1))
  }

  lemma FreshTyped(c: Config, f: Field)
    requires FieldWellFormed(c, f)
    ensures f.ltype.SubmessageT? ==> Typed(c, f.ltype.sub, Fresh(f))
  {
    if f.ltype.SubmessageT? {
      DefaultsTyped(c, f.ltype.sub);
    }
  }

  /** Store a field's new contents; a oneof member displaces the rest of its group. */
  function Store(m: Message, slots: seq<Slot>, i: nat, s: Slot): (r: seq<Slot>)
    requires i < |slots| == |m.fields|
    ensures |r| == |slots|
  {
    seq(|slots|, j requires 0 <= j < |slots| =>
      if j == i then s
      else if m.fields[i].htype.Oneof? && m.fields[j].htype == m.fields[i].htype then Choice(None)
      else slots[j])
  }

  // ----- messages ------------------------------------------------------------

  /** The struct, and which required fields have occurred. */
  datatype State = State(slots: seq<Slot>, seen: set<nat>)

  /** The field after a tag; an unknown one is skipped. */
  function Step(c: Config, m: Message, st: State, tag: nat, wt: nat, b: seq<byte>): (r: Option<(State, seq<byte>)>)
    requires WellFormed(c, m) && Typed(c, m, st.slots)
    ensures r.Some? ==> |r.value.1| <= |b| && Typed(c, m, r.value.0.slots)
    decreases m, |b| + 1, 0
  {
    var i := Lookup(m, tag);
    if i == |m.fields| then
      var p := if m.fields == [] && tag == 0 then None else Skip(wt, b);
      if p.None? then None else Some((st, p.value))
    else
      var f := m.fields[i];
      assert FieldWellFormed(c, f) && SlotTyped(c, f, st.slots[i]);
      var p := DecodeSlot(c, f, st.slots[i], wt, b);
      if p.None? then None
      else
        var seen := if f.htype.Required? then st.seen + {i} else st.seen;
        Some((State(Store(m, st.slots, i, p.value.0), seen), p.value.1))
  }

  /** How the decoding loop stops, what it leaves unread, and whether it came back to
      its head with nothing left. */
  datatype Stop = Stop(st: State, rest: seq<byte>, exhausted: bool)

  function Loop(c: Config, m: Message, st: State, b: seq<byte>): (r: Option<Stop>)
    requires WellFormed(c, m) && Typed(c, m, st.slots)
    ensures r.Some? ==> Typed(c, m, r.value.st.slots)
    decreases m, |b| + 1, 1
  {
    if b == [] then Some(Stop(st, [], true))
    else
      match DecodeTag(b)
      case Eof(rest) => Some(Stop(st, rest, false))
      case Overlong => None
      case Tagged(tag, wt, rest) =>
        var p := Step(c, m, st, tag, wt, rest);
        if p.None? then None else Loop(c, m, p.value.0, p.value.1)
  }

  predicate AllRequired(m: Message, seen: set<nat>) {
    forall i :: 0 <= i < |m.fields| && m.fields[i].htype.Required? ==> i in seen
  }

  /** pb_decode_noinit: decode over what the struct holds already. */
  function DecodeInto(c: Config, m: Message, slots: seq<Slot>, b: seq<byte>): (r: Option<seq<Slot>>)
    requires WellFormed(c, m) && Typed(c, m, slots)
    ensures r.Some? ==> Typed(c, m, r.value)
    decreases m, |b| + 2, 0
  {
    var r := Loop(c, m, State(slots, {}), b);
    if r.None? || !AllRequired(m, r.value.st.seen) then None else Some(r.value.st.slots)
  }

  /** pb_decode. */
  function DecodeMessage(c: Config, m: Message, b: seq<byte>): (r: Option<seq<Slot>>)
    requires WellFormed(c, m)
    ensures r.Some? ==> Typed(c, m, r.value)
  {
    DefaultsTyped(c, m);
    DecodeInto(c, m, Defaults(m), b)
  }
}
