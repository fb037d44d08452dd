/**
 What decoding guarantees of any byte string at all: the contents fit the memory of their
 fields, required fields have occurred, absent fields hold their defaults, and numbers are
 taken exactly when the field can hold them.
 */
module DecodingLaws {
  import opened Common
  import opened Varint
  import opened Schema
  import opened Encoding
  import opened Decoding
  import opened RoundTrip

  // ----- memory --------------------------------------------------------------

  /** The contents take up no more memory than the field has: bytes behind their count,
      strings with a terminator, at every depth. */
  predicate ValueFits(c: Config, f: Field, v: Value)
    decreases f, 0
  {
    match f.ltype
    case BytesT => v.Raw? && |v.b| + c.sizeBytes <= f.dataSize
    case StringT => v.Raw? && |v.b| < f.dataSize
    case FixedBytesT => v.Raw? && |v.b| == f.dataSize
    case SubmessageT(sub) => v.Struct? && Fits(c, sub, v.slots)
    case VarintT => v.Int? && FitsSigned(v.i, f.dataSize)
    case SvarintT => v.Int? && FitsSigned(v.i, f.dataSize)
    case _ => v.Int? && FitsUnsigned(v.i, f.dataSize)
  }

  predicate SlotFits(c: Config, f: Field, s: Slot)
    decreases f, 2
  {
    match s
    case Single(v) => ValueFits(c, f, v)
    case Maybe(_, v) => ValueFits(c, f, v)
    case Many(items) => ItemsFit(c, f, items)
    case Choice(member) => member.Some? ==> ValueFits(c, f, member.value)
  }

  predicate ItemsFit(c: Config, f: Field, items: seq<Value>)
    decreases f, 1
  {
    |items| <= f.arraySize && forall k :: 0 <= k < |items| ==> ValueFits(c, f, items[k])
  }

  predicate Fits(c: Config, m: Message, slots: seq<Slot>)
    decreases m
  {
    |slots| == |m.fields| && forall i :: 0 <= i < |slots| ==> SlotFits(c, m.fields[i], slots[i])
  }

  /** The defaults of the schema fit, at every depth. */
  predicate DefaultFits(c: Config, f: Field)
    decreases f
  {
    if f.ltype.SubmessageT? then DefaultsFit(c, f.ltype.sub) else ValueFits(c, f, f.default)
  }

  predicate DefaultsFit(c: Config, m: Message)
    decreases m
  {
    forall i :: 0 <= i < |m.fields| ==> DefaultFits(c, m.fields[i])
  }

  lemma {:induction false} DefaultsDoFit(c: Config, m: Message)
    requires DefaultsFit(c, m)
    ensures Fits(c, m, Defaults(m))
    decreases m
  {
    forall i | 0 <= i < |m.fields|
      ensures SlotFits(c, m.fields[i], DefaultSlot(m.fields[i]))
    {
      var f := m.fields[i];
      assert DefaultFits(c, f);
      if f.ltype.SubmessageT? {
        DefaultsDoFit(c, f.ltype.sub);
      }
      assert ValueFits(c, f, DefaultValue(f));
    }
  }

  lemma {:induction false} ValueDecodedFits(c: Config, f: Field, base: seq<Slot>, b: seq<byte>)
    requires FieldWellFormed(c, f) && DefaultFits(c, f)
    requires f.ltype.SubmessageT? ==> Typed(c, f.ltype.sub, base) && Fits(c, f.ltype.sub, base)
    requires DecodeValue(c, f, base, b).Some?
    ensures ValueFits(c, f, DecodeValue(c, f, base, b).value.0)
    decreases f, 0, 0
  {
    hide Parse, Substream, Fixed, Typed, Fits, WellFormed, ValueTyped;
    if f.ltype.SubmessageT? {
      StructDecodedFits(c, f.ltype.sub, base, Substream(b).value.0);
    }
  }

  lemma FreshFits(c: Config, f: Field)
    requires FieldWellFormed(c, f) && DefaultFits(c, f)
    ensures f.ltype.SubmessageT? ==> Typed(c, f.ltype.sub, Fresh(f)) && Fits(c, f.ltype.sub, Fresh(f))
  {
    FreshTyped(c, f);
    if f.ltype.SubmessageT? {
      DefaultsDoFit(c, f.ltype.sub);
    }
  }

  lemma {:induction false} FreshDecodedFits(c: Config, f: Field, b: seq<byte>)
    requires FieldWellFormed(c, f) && DefaultFits(c, f) && DecodeFresh(c, f, b).Some?
    ensures ValueFits(c, f, DecodeFresh(c, f, b).value.0)
    decreases f, 1, 0
  {
    FreshFits(c, f);
    ValueDecodedFits(c, f, Fresh(f), b);
  }

  lemma {:induction false} PackedDecodedFits(c: Config, f: Field, items: seq<Value>, b: seq<byte>)
    requires FieldWellFormed(c, f) && DefaultFits(c, f) && Packable(f.ltype)
    requires (forall k :: 0 <= k < |items| ==> ValueTyped(c, f, items[k])) && ItemsFit(c, f, items)
    requires DecodePacked(c, f, items, b).Some?
    ensures ItemsFit(c, f, DecodePacked(c, f, items, b).value)
    decreases f, 1, |b|
  {
    hide FieldWellFormed, DefaultFits, ValueTyped, ValueFits, DecodeValue;
    if b != [] {
      var (v, rest) := DecodeValue(c, f, [], b).value;
      ValueDecodedFits(c, f, [], b);
      PackedDecodedFits(c, f, items + [v], rest);
    }
  }

  lemma {:induction false} SlotDecodedFits(c: Config, f: Field, s: Slot, wt: nat, b: seq<byte>)
    requires FieldWellFormed(c, f) && DefaultFits(c, f) && SlotTyped(c, f, s) && SlotFits(c, f, s)
    requires DecodeSlot(c, f, s, wt, b).Some?
    ensures SlotFits(c, f, DecodeSlot(c, f, s, wt, b).value.0)
    decreases f, 3, 0
  {
    hide FieldWellFormed, DefaultFits, DecodeValue, DecodeFresh, DecodePacked, Substream;
    match f.htype
    case Required => OverDecodedFits(c, f, s.v, b);
    case Optional(_) => OverDecodedFits(c, f, s.v, b);
    case Repeated =>
      if wt == WT_STRING && Packable(f.ltype) {
        PackedDecodedFits(c, f, s.items, Substream(b).value.0);
      } else {
        FreshDecodedFits(c, f, b);
      }
    case Oneof(_) => FreshDecodedFits(c, f, b);
  }

  lemma {:induction false} OverDecodedFits(c: Config, f: Field, v: Value, b: seq<byte>)
    requires FieldWellFormed(c, f) && DefaultFits(c, f) && ValueTyped(c, f, v) && ValueFits(c, f, v)
    requires DecodeOver(c, f, v, b).Some?
    ensures ValueFits(c, f, DecodeOver(c, f, v, b).value.0)
    decreases f, 1, 0
  {
    hide FieldWellFormed, DefaultFits, DecodeValue;
    ValueDecodedFits(c, f, if f.ltype.SubmessageT? then v.slots else [], b);
  }

  lemma {:induction false} StepFits(c: Config, m: Message, st: State, tag: nat, wt: nat, b: seq<byte>)
    requires WellFormed(c, m) && DefaultsFit(c, m) && Typed(c, m, st.slots) && Fits(c, m, st.slots)
    requires Step(c, m, st, tag, wt, b).Some?
    ensures Fits(c, m, Step(c, m, st, tag, wt, b).value.0.slots)
    decreases m, |b| + 1, 0
  {
    hide FieldWellFormed, DefaultFits, SlotTyped, SlotFits, DecodeSlot, Skip, LookupFrom;
    var i := Lookup(m, tag);
    if i < |m.fields| {
      assert SlotFits(c, m.fields[i], st.slots[i]) && DefaultFits(c, m.fields[i]);
      assert FieldWellFormed(c, m.fields[i]) && SlotTyped(c, m.fields[i], st.slots[i]);
      SlotDecodedFits(c, m.fields[i], st.slots[i], wt, b);
      NoMemberFits(c, m);
    }
  }

  lemma NoMemberFits(c: Config, m: Message)
    ensures forall i :: 0 <= i < |m.fields| ==> SlotFits(c, m.fields[i], Choice(None))
  {}

  lemma {:induction false} LoopFits(c: Config, m: Message, st: State, b: seq<byte>)
    requires WellFormed(c, m) && DefaultsFit(c, m) && Typed(c, m, st.slots) && Fits(c, m, st.slots)
    requires Loop(c, m, st, b).Some?
    ensures Fits(c, m, Loop(c, m, st, b).value.st.slots)
    decreases m, |b| + 1, 1
  {
    hide WellFormed, DefaultsFit, Typed, Fits, Step, DecodeTag;
    if b != [] && DecodeTag(b).Tagged? {
      var h := DecodeTag(b);
      StepFits(c, m, st, h.tag, h.wt, h.rest);
      var (next, rest) := Step(c, m, st, h.tag, h.wt, h.rest).value;
      LoopFits(c, m, next, rest);
    }
  }

  /** Whatever the input, what is decoded over contents that fit, fits. */
  lemma {:induction false} StructDecodedFits(c: Config, m: Message, slots: seq<Slot>, b: seq<byte>)
    requires WellFormed(c, m) && DefaultsFit(c, m) && Typed(c, m, slots) && Fits(c, m, slots)
    requires DecodeInto(c, m, slots, b).Some?
    ensures Fits(c, m, DecodeInto(c, m, slots, b).value)
    decreases m, |b| + 2, 0
  {
    hide WellFormed, DefaultsFit, Typed, Fits, Loop;
    LoopFits(c, m, State(slots, {}), b);
  }

  /** No input makes pb_decode leave in a field more than its memory holds. */
  lemma DecodedFits(c: Config, m: Message, b: seq<byte>)
    requires WellFormed(c, m) && DefaultsFit(c, m) && DecodeMessage(c, m, b).Some?
    ensures Fits(c, m, DecodeMessage(c, m, b).value)
  {
    hide WellFormed, DefaultsFit, Typed, Fits, DecodeInto;
    DefaultsTyped(c, m);
    DefaultsDoFit(c, m);
    StructDecodedFits(c, m, Defaults(m), b);
  }

  // ----- required fields -----------------------------------------------------

  /** The tags that the decoding loop comes to, in order. */
  function TagsMet(c: Config, m: Message, st: State, b: seq<byte>): seq<nat>
    requires WellFormed(c, m) && Typed(c, m, st.slots)
    decreases |b|
  {
    if b == [] then []
    else
      match DecodeTag(b)
      case Tagged(tag, wt, rest) =>
        var p := Step(c, m, st, tag, wt, rest);
        [tag] + if p.None? then [] else TagsMet(c, m, p.value.0, p.value.1)
      case _ => []
  }

  predicate IsRequired(m: Message, i: int) {
    0 <= i < |m.fields| && m.fields[i].htype.Required?
  }

  lemma {:induction false} SeenExactly(c: Config, m: Message, st: State, b: seq<byte>, i: int)
    requires WellFormed(c, m) && Typed(c, m, st.slots) && Loop(c, m, st, b).Some? && IsRequired(m, i)
    ensures i in Loop(c, m, st, b).value.st.seen <==>
              i in st.seen || m.fields[i].tag in TagsMet(c, m, st, b)
    decreases |b|
  {
    hide Typed, Step, DecodeTag, FieldWellFormed;
    if b != [] && DecodeTag(b).Tagged? {
      var h := DecodeTag(b);
      var (next, rest) := Step(c, m, st, h.tag, h.wt, h.rest).value;
      SeenExactly(c, m, next, rest, i);
      StepSees(c, m, st, h.tag, h.wt, h.rest, i);
    }
  }

  lemma StepSees(c: Config, m: Message, st: State, tag: nat, wt: nat, b: seq<byte>, i: nat)
    requires WellFormed(c, m) && Typed(c, m, st.slots) && Step(c, m, st, tag, wt, b).Some? && IsRequired(m, i)
    ensures i in Step(c, m, st, tag, wt, b).value.0.seen <==> i in st.seen || m.fields[i].tag == tag
  {
    hide Skip, DecodeSlot, LookupFrom, FieldWellFormed, SlotTyped, Store;
  }

  /** A message is decoded if and only if the loop gets through it and meets the tag of
      every required field. */
  lemma RequiredExactly(c: Config, m: Message, slots: seq<Slot>, b: seq<byte>)
    requires WellFormed(c, m) && Typed(c, m, slots)
    ensures DecodeInto(c, m, slots, b).Some? <==>
              && Loop(c, m, State(slots, {}), b).Some?
              && forall i :: IsRequired(m, i) ==> m.fields[i].tag in TagsMet(c, m, State(slots, {}), b)
  {
    hide WellFormed, Typed, Loop, TagsMet;
    var st := State(slots, {});
    if Loop(c, m, st, b).Some? {
      forall i | IsRequired(m, i)
        ensures i in Loop(c, m, st, b).value.st.seen <==> m.fields[i].tag in TagsMet(c, m, st, b)
      {
        SeenExactly(c, m, st, b, i);
      }
    }
  }

  // ----- absent fields -------------------------------------------------------

  /** Nothing is there: no flag, no items, no member, and otherwise the default. */
  predicate Absent(f: Field, s: Slot) {
    match f.htype
    case Required => s.Single? && HoldsDefault(f, s.v)
    case Optional(hasFlag) => if hasFlag then s.Maybe? && !s.has && HoldsDefault(f, s.v)
                              else s.Single? && HoldsDefault(f, s.v)
    case Repeated => s == Many([])
    case Oneof(_) => s == Choice(None)
  }

  predicate HoldsDefault(f: Field, v: Value) {
    if f.ltype.SubmessageT? then v.Struct? && |v.slots| == |f.ltype.sub.fields| else v == f.default
  }

  /** A field whose tag is not met, and no other member of whose oneof is, keeps what was
      there before. */
  lemma {:induction false} UntouchedField(c: Config, m: Message, st: State, b: seq<byte>, i: nat)
    requires WellFormed(c, m) && Typed(c, m, st.slots) && Loop(c, m, st, b).Some? && i < |m.fields|
    requires forall j: nat :: j < |m.fields| && (j == i || SameOneof(m, j, i)) ==>
               m.fields[j].tag !in TagsMet(c, m, st, b)
    ensures |st.slots| == |Loop(c, m, st, b).value.st.slots| == |m.fields|
    ensures Loop(c, m, st, b).value.st.slots[i] == st.slots[i]
    decreases |b|
  {
    hide Step, DecodeTag, FieldWellFormed, SlotTyped;
    if b != [] && DecodeTag(b).Tagged? {
      var h := DecodeTag(b);
      var (next, rest) := Step(c, m, st, h.tag, h.wt, h.rest).value;
      StepLeaves(c, m, st, h.tag, h.wt, h.rest, i);
      UntouchedField(c, m, next, rest, i);
    }
  }

  lemma StepLeaves(c: Config, m: Message, st: State, tag: nat, wt: nat, b: seq<byte>, i: nat)
    requires WellFormed(c, m) && Typed(c, m, st.slots) && Step(c, m, st, tag, wt, b).Some? && i < |m.fields|
    requires forall j: nat :: j < |m.fields| && (j == i || SameOneof(m, j, i)) ==> m.fields[j].tag != tag
    ensures |st.slots| == |m.fields| == |Step(c, m, st, tag, wt, b).value.0.slots|
    ensures Step(c, m, st, tag, wt, b).value.0.slots[i] == st.slots[i]
  {
    hide Skip, DecodeSlot, LookupFrom, FieldWellFormed, SlotTyped;
  }

  /** The tags that pb_decode comes to. */
  function TagsOf(c: Config, m: Message, b: seq<byte>): seq<nat>
    requires WellFormed(c, m)
  {
    DefaultsTyped(c, m);
    TagsMet(c, m, State(Defaults(m), {}), b)
  }

  /** After pb_decode, a field that the input does not mention is absent. */
  lemma UnmentionedIsAbsent(c: Config, m: Message, b: seq<byte>, i: nat)
    requires WellFormed(c, m) && DecodeMessage(c, m, b).Some? && i < |m.fields|
    requires forall j: nat :: j < |m.fields| && (j == i || SameOneof(m, j, i)) ==> m.fields[j].tag !in TagsOf(c, m, b)
    ensures |DecodeMessage(c, m, b).value| == |m.fields| && Absent(m.fields[i], DecodeMessage(c, m, b).value[i])
  {
    hide WellFormed, Typed, Loop, TagsMet;
    DefaultsTyped(c, m);
    UntouchedField(c, m, State(Defaults(m), {}), b, i);
    assert DecodeMessage(c, m, b).value[i] == DefaultSlot(m.fields[i]);
    DefaultIsAbsent(m.fields[i]);
  }

  lemma DefaultIsAbsent(f: Field)
    ensures Absent(f, DefaultSlot(f))
  {}

  /** What is there and what is not. */
  predicate SamePresence(s: Slot, t: Slot) {
    match s
    case Single(_) => t.Single?
    case Maybe(has, _) => t.Maybe? && t.has == has
    case Many(items) => t.Many? && |t.items| == |items|
    case Choice(member) => t.Choice? && (t.member.Some? <==> member.Some?)
  }

  /** Has flags, counts and oneof members come back as they were encoded. */
  lemma PresenceComesBack(c: Config, m: Message, slots: seq<Slot>)
    requires WellFormed(c, m) && Typed(c, m, slots) && Terminated(c, m, slots)
    requires EncodeMessage(c, m, slots).Some? && |EncodeMessage(c, m, slots).value| < WORD32
    ensures var back := DecodeMessage(c, m, EncodeMessage(c, m, slots).value);
            && back.Some? && |back.value| == |slots|
            && forall i :: 0 <= i < |slots| ==> SamePresence(slots[i], back.value[i])
  {
    hide WellFormed, Terminated, EncodeMessage, DecodeMessage, SlotTyped, RebuiltSlot;
    DecodeOfEncode(c, m, slots);
    forall i | 0 <= i < |slots|
      ensures SamePresence(slots[i], RebuiltSlot(c, m.fields[i], slots[i]))
    {
      RebuiltIsThere(c, m.fields[i], slots[i]);
    }
  }

  lemma RebuiltIsThere(c: Config, f: Field, s: Slot)
    requires SlotTyped(c, f, s)
    ensures SamePresence(s, RebuiltSlot(c, f, s))
  {
    hide ValueTyped, RebuiltValue, DefaultValue, IsZero;
    match s
    case Single(_) => {}
    case Maybe(has, _) => assert DefaultSlot(f) == Maybe(false, DefaultValue(f));
    case Many(items) => assert !Unwritten(c, f, s);
    case Choice(_) => assert !Unwritten(c, f, s);
  }

  // ----- numbers -------------------------------------------------------------

  /** A varint is taken exactly for the numbers that the field can hold: unsigned ones as
      they stand, signed ones as their two's complement of 64 bits, or of 32 where the
      field has no more, ZigZag ones as the ZigZag numbering has it. */
  lemma NumberTakenExactly(f: Field, v: nat, i: int)
    requires v < WORD64 && IntegerSize(f.dataSize)
    ensures f.ltype.UvarintT? ==> (FromVarint(f, v) == Some(i) <==> i == v && FitsUnsigned(i, f.dataSize))
    ensures f.ltype.SvarintT? ==> (FromVarint(f, v) == Some(i) <==> FitsSigned(i, f.dataSize) && ZigZag(i) == v)
    ensures f.ltype.VarintT? ==>
              (FromVarint(f, v) == Some(i) <==>
                 FitsSigned(i, f.dataSize) && (if f.dataSize == 8 then i % WORD64 == v else i % WORD32 == v % WORD32))
  {
    hide ZigZag, UnZigZag;
    UnZigZagRoundTrip(v);
    if FitsSigned(i, f.dataSize) {
      ZigZagRoundTrip(i);
    }
  }

  /** A record for bytes of a fixed length is taken if and only if it is empty, when the
      bytes become zeros, or has exactly that length. */
  lemma FixedLengthExactly(c: Config, f: Field, body: seq<byte>, rest: seq<byte>)
    requires FieldWellFormed(c, f) && f.ltype.FixedBytesT? && |body| < WORD32
    ensures var r := DecodeFresh(c, f, Delimited(body) + rest);
            && (r.Some? <==> body == [] || |body| == f.dataSize)
            && (r.Some? && body != [] ==> r == Some((Raw(body), rest)))
            && (body == [] ==> r.value.0.Raw? && |r.value.0.b| == f.dataSize
                               && forall k :: 0 <= k < f.dataSize ==> r.value.0.b[k] == 0)
  {
    hide Delimited, Substream, Parse;
    FreshTyped(c, f);
    Merging.SubstreamOfDelimited(body, rest);
  }

  // ----- where a message ends ------------------------------------------------

  /** Every byte asks for another one. */
  predicate Unfinished(b: seq<byte>) {
    forall k :: 0 <= k < |b| ==> b[k] >= 0x80
  }

  lemma {:induction false} UnfinishedHasNoValue(b: seq<byte>, n: nat)
    requires Unfinished(b[..Min(|b|, n)])
    ensures Parse(b, n).None?
    decreases n
  {
    if n > 0 && b != [] {
      var front := b[..Min(|b|, n)];
      assert front[0] == b[0];
      assert b[1..][..Min(|b[1..]|, n - 1)] == front[1..];
      UnfinishedHasNoValue(b[1..], n - 1);
    }
  }

  /** An input that breaks off within a tag of up to five bytes ends the message there; one
      of more than five bytes, none of the first five of which ends the number, is refused. */
  lemma BrokenTagExactly(c: Config, m: Message, st: State, b: seq<byte>)
    requires WellFormed(c, m) && Typed(c, m, st.slots) && b != [] && Unfinished(b[..Min(|b|, 5)])
    ensures Loop(c, m, st, b) == if |b| <= 5 then Some(Stop(st, [], false)) else None
  {
    hide WellFormed, Typed, Parse, Step;
    UnfinishedHasNoValue(b, 5);
  }
}
