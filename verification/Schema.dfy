/**
 Message descriptions and the contents of message structs, with static allocation.
 */
module Schema {
  import opened Common
  import opened Varint

  /** The build's pb_size_t: its maximum, and how many bytes precede the data of a
      bytes array (the offset of its bytes member). */
  datatype Config = Config(sizeMax: nat, sizeBytes: nat)

  datatype LType =
    | VarintT | UvarintT | SvarintT | Fixed32T | Fixed64T
    | BytesT | StringT | SubmessageT(sub: Message) | FixedBytesT

  /** How often a field occurs. An optional field may have a has flag of its own or,
      in the proto3 style, none; the members of one oneof share a group number. */
  datatype HType = Required | Optional(hasFlag: bool) | Repeated | Oneof(group: nat)

  datatype Field = Field(
    tag: nat, ltype: LType, htype: HType,
    dataOffset: nat, sizeOffset: int, dataSize: nat, arraySize: nat, default: Value)

  datatype Message = Message(fields: seq<Field>)

  /** The contents of one field: a number, a byte string, or an embedded struct. A
      string's bytes are followed in memory by a zero byte, if there is room. */
  datatype Value = Int(i: int) | Raw(b: seq<byte>) | Struct(slots: seq<Slot>)

  /** What a struct keeps for one field: contents, contents with a has flag, an array
      with its count, or a oneof member, present when the oneof's tag names it. */
  datatype Slot =
    | Single(v: Value) | Maybe(has: bool, v: Value) | Many(items: seq<Value>) | Choice(member: Option<Value>)

  predicate Packable(t: LType) {
    t.VarintT? || t.UvarintT? || t.SvarintT? || t.Fixed32T? || t.Fixed64T?
  }

  // ----- integer widths ------------------------------------------------------

  predicate IntegerSize(n: nat) {
    n == 1 || n == 2 || n == 4 || n == 8
  }

  function Half(n: nat): nat
    requires IntegerSize(n)
  {
    if n == 1 then 0x80 else if n == 2 then 0x8000 else if n == 4 then 0x8000_0000 else 0x8000_0000_0000_0000
  }

  predicate FitsSigned(i: int, size: nat) {
    IntegerSize(size) && -(Half(size) as int) <= i < Half(size)
  }

  predicate FitsUnsigned(i: int, size: nat) {
    IntegerSize(size) && 0 <= i < 2 * Half(size)
  }

  // ----- which contents a field can have -------------------------------------

  predicate ValueTyped(c: Config, f: Field, v: Value)
    decreases f, 0
  {
    match f.ltype
    case VarintT => v.Int? && (IntegerSize(f.dataSize) ==> FitsSigned(v.i, f.dataSize))
    case UvarintT => v.Int? && (IntegerSize(f.dataSize) ==> FitsUnsigned(v.i, f.dataSize))
    case SvarintT => v.Int? && (IntegerSize(f.dataSize) ==> FitsSigned(v.i, f.dataSize))
    case Fixed32T => v.Int? && FitsUnsigned(v.i, 4)
    case Fixed64T => v.Int? && FitsUnsigned(v.i, 8)
    case BytesT => v.Raw? && |v.b| <= c.sizeMax
    case StringT => v.Raw? && |v.b| <= f.dataSize
    case FixedBytesT => v.Raw? && |v.b| == f.dataSize
    case SubmessageT(sub) => v.Struct? && Typed(c, sub, v.slots)
  }

  /** An embedded struct in an optional field without a has flag has no counterpart. */
  predicate SlotTyped(c: Config, f: Field, s: Slot)
    decreases f, 1
  {
    match f.htype
    case Required => s.Single? && ValueTyped(c, f, s.v)
    case Optional(hasFlag) =>
      if hasFlag then s.Maybe? && ValueTyped(c, f, s.v)
      else s.Single? && !f.ltype.SubmessageT? && ValueTyped(c, f, s.v)
    case Repeated => s.Many? && (forall k :: 0 <= k < |s.items| ==> ValueTyped(c, f, s.items[k]))
    case Oneof(_) => s.Choice? && (s.member.Some? ==> ValueTyped(c, f, s.member.value))
  }

  predicate SameOneof(m: Message, i: nat, j: nat)
    requires i < |m.fields| && j < |m.fields|
  {
    m.fields[i].htype.Oneof? && m.fields[j].htype == m.fields[i].htype
  }

  /** A oneof's tag names one member. */
  predicate OneMember(m: Message, slots: seq<Slot>)
    requires |slots| == |m.fields|
  {
    forall i, j :: 0 <= i < j < |slots| && SameOneof(m, i, j) && slots[i].Choice? && slots[j].Choice? ==>
      slots[i].member.None? || slots[j].member.None?
  }

  predicate Typed(c: Config, m: Message, slots: seq<Slot>)
    decreases m
  {
    && |slots| == |m.fields|
    && OneMember(m, slots)
    && forall i :: 0 <= i < |slots| ==> SlotTyped(c, m.fields[i], slots[i])
  }

  // ----- default contents ----------------------------------------------------

  /** The contents a field's memory holds when all of it is zero. */
  function Zero(f: Field): Value {
    match f.ltype
    case BytesT => Raw([])
    case StringT => Raw([])
    case FixedBytesT => Raw(seq(f.dataSize, _ => 0))
    case SubmessageT(_) => Struct([])
    case _ => Int(0)
  }

  function DefaultValue(f: Field): Value
    decreases f, 0
  {
    if f.ltype.SubmessageT? then Struct(Defaults(f.ltype.sub)) else f.default
  }

  function DefaultSlot(f: Field): Slot
    decreases f, 1
  {
    match f.htype
    case Required => Single(DefaultValue(f))
    case Optional(hasFlag) => if hasFlag then Maybe(false, DefaultValue(f)) else Single(DefaultValue(f))
    case Repeated => Many([])
    case Oneof(_) => Choice(None)
  }

  function Defaults(m: Message): (r: seq<Slot>)
    ensures |r| == |m.fields|
    decreases m
  {
    seq(|m.fields|, i requires 0 <= i < |m.fields| => DefaultSlot(m.fields[i]))
  }

  // ----- schemas a generator emits -------------------------------------------

  predicate FieldWellFormed(c: Config, f: Field)
    decreases f
  {
    && 0 < f.tag < 0x2000_0000
    && f.dataSize <= c.sizeMax
    && (f.ltype.VarintT? || f.ltype.UvarintT? || f.ltype.SvarintT? ==> IntegerSize(f.dataSize))
    && (f.ltype.Fixed32T? ==> f.dataSize == 4) && (f.ltype.Fixed64T? ==> f.dataSize == 8)
    && (f.ltype.SubmessageT? ==> WellFormed(c, f.ltype.sub))
    && (!f.ltype.SubmessageT? ==> ValueTyped(c, f, f.default))
    && (f.htype == Optional(false) ==> !f.ltype.SubmessageT?)
  }

  predicate DistinctTags(m: Message) {
    forall i, j :: 0 <= i < j < |m.fields| ==> m.fields[i].tag != m.fields[j].tag
  }

  predicate WellFormed(c: Config, m: Message)
    decreases m
  {
    DistinctTags(m) && forall i :: 0 <= i < |m.fields| ==> FieldWellFormed(c, m.fields[i])
  }

  lemma {:induction false} DefaultsTyped(c: Config, m: Message)
    requires WellFormed(c, m)
    ensures Typed(c, m, Defaults(m))
    decreases m
  {
    forall i | 0 <= i < |m.fields| ensures SlotTyped(c, m.fields[i], DefaultSlot(m.fields[i])) {
      var f := m.fields[i];
      assert FieldWellFormed(c, f);
      if f.ltype.SubmessageT? {
        DefaultsTyped(c, f.ltype.sub);
      }
    }
  }
}
