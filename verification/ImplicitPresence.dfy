/**
 Fields without a has flag, told without the encoder's own test: which contents are not
 written, and that with the type's zero as default nothing is lost by it.
 */
module ImplicitPresence {
  import opened Common
  import opened Varint
  import opened Schema
  import opened Encoding
  import opened Decoding
  import opened RoundTrip

  // ----- what is left out ----------------------------------------------------

  /** A number in such a field contributes no bytes if and only if it is zero. */
  lemma NumberLeftOutExactly(c: Config, f: Field, i: int)
    requires FieldWellFormed(c, f) && f.htype == Optional(false) && Packable(f.ltype) && ValueTyped(c, f, Int(i))
    ensures EncodeField(c, f, Single(Int(i))).Some?
    ensures EncodeField(c, f, Single(Int(i))) == Some([]) <==> i == 0
  {
    hide Encode, Little;
    assert SlotTyped(c, f, Single(Int(i)));
    if i != 0 {
      assert EncodeValue(c, f, Int(i)).Some?;
      assert |EncodeTagged(c, f, Int(i)).value| > 0;
    }
  }

  /** A string if and only if it is empty or begins with a zero byte; bytes if and only if
      there are none, in a field they fit. */
  lemma BytesLeftOutExactly(c: Config, f: Field, b: seq<byte>)
    requires FieldWellFormed(c, f) && f.htype == Optional(false) && !Packable(f.ltype) && ValueTyped(c, f, Raw(b))
    requires !f.ltype.SubmessageT?
    ensures var e := EncodeField(c, f, Single(Raw(b)));
            match f.ltype
            case StringT => e == Some([]) <==> (b == [] || b[0] == 0)
            case _ => e == Some([]) <==> b == []
  {
    hide Encode;
    assert SlotTyped(c, f, Single(Raw(b)));
    var e := EncodeTagged(c, f, Raw(b));
    assert e.Some? ==> |e.value| > 0;
  }

  // ----- nothing is lost -----------------------------------------------------

  /** The zero contents of a type. */
  predicate ZeroContents(f: Field, v: Value) {
    match f.ltype
    case BytesT => v == Raw([])
    case StringT => v == Raw([])
    case FixedBytesT => v.Raw?
    case SubmessageT(_) => v.Struct?
    case _ => v == Int(0)
  }

  /** At every depth, a field without a has flag has its type's zero contents as default. */
  predicate ZeroDefaults(m: Message)
    decreases m
  {
    forall i :: 0 <= i < |m.fields| ==> ZeroDefault(m.fields[i])
  }

  predicate ZeroDefault(f: Field)
    decreases f
  {
    && (f.htype == Optional(false) ==> ZeroContents(f, f.default))
    && (f.ltype.SubmessageT? ==> ZeroDefaults(f.ltype.sub))
  }

  /** At every depth, every string has its terminator within its field. */
  predicate AllTerminated(c: Config, m: Message, slots: seq<Slot>)
    requires Typed(c, m, slots)
    decreases m
  {
    forall i :: 0 <= i < |slots| ==> SlotAllTerminated(c, m.fields[i], slots[i])
  }

  predicate SlotAllTerminated(c: Config, f: Field, s: Slot)
    requires SlotTyped(c, f, s)
    decreases f, 1
  {
    match s
    case Single(v) => ValueAllTerminated(c, f, v)
    case Maybe(has, v) => ValueAllTerminated(c, f, v)
    case Many(items) => forall k :: 0 <= k < |items| ==> ValueAllTerminated(c, f, items[k])
    case Choice(member) => member.Some? ==> ValueAllTerminated(c, f, member.value)
  }

  predicate ValueAllTerminated(c: Config, f: Field, v: Value)
    requires ValueTyped(c, f, v)
    decreases f, 0
  {
    && (f.ltype.StringT? ==> |CString(v.b)| < f.dataSize)
    && (f.ltype.SubmessageT? ==> AllTerminated(c, f.ltype.sub, v.slots))
  }

  lemma {:induction false} AllAreTerminated(c: Config, m: Message, slots: seq<Slot>)
    requires Typed(c, m, slots) && AllTerminated(c, m, slots)
    ensures Terminated(c, m, slots)
    decreases m
  {
    hide SlotTyped, SlotTerminated, SlotAllTerminated;
    forall i | 0 <= i < |slots|
      ensures SlotTerminated(c, m.fields[i], slots[i])
    {
      SlotIsTerminated(c, m.fields[i], slots[i]);
    }
  }

  lemma {:induction false} SlotIsTerminated(c: Config, f: Field, s: Slot)
    requires SlotTyped(c, f, s) && SlotAllTerminated(c, f, s)
    ensures SlotTerminated(c, f, s)
    decreases f, 1
  {
    hide Unwritten, ValueTyped, ValueTerminated, ValueAllTerminated;
    match s
    case Single(v) => ValueIsTerminated(c, f, v);
    case Maybe(has, v) => ValueIsTerminated(c, f, v);
    case Many(items) =>
      forall k | 0 <= k < |items|
        ensures ValueTerminated(c, f, items[k])
      {
        ValueIsTerminated(c, f, items[k]);
      }
    case Choice(member) =>
      if member.Some? {
        ValueIsTerminated(c, f, member.value);
      }
  }

  lemma {:induction false} ValueIsTerminated(c: Config, f: Field, v: Value)
    requires ValueTyped(c, f, v) && ValueAllTerminated(c, f, v)
    ensures ValueTerminated(c, f, v)
    decreases f, 0
  {
    if f.ltype.SubmessageT? {
      AllAreTerminated(c, f.ltype.sub, v.slots);
    }
  }

  lemma {:induction false} ZerosAreKept(c: Config, m: Message, slots: seq<Slot>)
    requires WellFormed(c, m) && Typed(c, m, slots) && ZeroDefaults(m)
    ensures Kept(c, m, slots)
    decreases m
  {
    hide SlotTyped, KeptSlot, FieldWellFormed, ZeroDefault;
    forall i | 0 <= i < |slots|
      ensures KeptSlot(c, m.fields[i], slots[i])
    {
      assert FieldWellFormed(c, m.fields[i]) && ZeroDefault(m.fields[i]);
      SlotIsKept(c, m.fields[i], slots[i]);
    }
  }

  lemma {:induction false} SlotIsKept(c: Config, f: Field, s: Slot)
    requires FieldWellFormed(c, f) && SlotTyped(c, f, s) && ZeroDefault(f)
    ensures KeptSlot(c, f, s)
    decreases f, 1
  {
    match s
    case Single(v) =>
      if Unwritten(c, f, s) {
        UnwrittenIsZero(c, f, v);
      } else {
        ValueIsKept(c, f, v);
      }
    case Maybe(has, v) => ValueIsKept(c, f, v);
    case Many(items) =>
      forall k | 0 <= k < |items|
        ensures KeptValue(c, f, items[k])
      {
        ValueIsKept(c, f, items[k]);
      }
    case Choice(member) =>
      if member.Some? {
        ValueIsKept(c, f, member.value);
      }
  }

  lemma {:induction false} ValueIsKept(c: Config, f: Field, v: Value)
    requires FieldWellFormed(c, f) && ValueTyped(c, f, v) && ZeroDefault(f)
    ensures KeptValue(c, f, v)
    decreases f, 0
  {
    if f.ltype.SubmessageT? {
      ZerosAreKept(c, f.ltype.sub, v.slots);
    }
  }

  /** What is not written is the zero of its type. */
  lemma UnwrittenIsZero(c: Config, f: Field, v: Value)
    requires FieldWellFormed(c, f) && SlotTyped(c, f, Single(v)) && ZeroDefault(f) && Unwritten(c, f, Single(v))
    ensures f.default == CanonValue(c, f, v)
  {
    assert ValueTyped(c, f, f.default) && ValueTyped(c, f, v);
    match f.ltype
    case FixedBytesT => assert v.b == [] && f.default.b == [];
    case _ =>
  }

  /** With the type's zero as default of every field without a has flag, the struct comes
      back whatever it holds: every zero, every negative number, every empty string. */
  lemma ImplicitFieldsComeBack(c: Config, m: Message, slots: seq<Slot>)
    requires WellFormed(c, m) && Typed(c, m, slots) && ZeroDefaults(m) && AllTerminated(c, m, slots)
    requires EncodeMessage(c, m, slots).Some? && |EncodeMessage(c, m, slots).value| < WORD32
    ensures DecodeMessage(c, m, EncodeMessage(c, m, slots).value) == Some(CanonMessage(c, m, slots))
  {
    hide WellFormed, Typed, ZeroDefaults, AllTerminated, EncodeMessage, DecodeMessage, Kept, Terminated;
    AllAreTerminated(c, m, slots);
    ZerosAreKept(c, m, slots);
    DecodeOfEncode(c, m, slots);
  }
}
