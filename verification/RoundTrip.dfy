/**
 Decoding what was encoded: for every schema and every struct, pb_decode of the bytes
 that pb_encode produced consumes all of them and rebuilds the struct, up to what the
 encoder cannot see.
 */
module RoundTrip {
  import opened Common
  import opened Varint
  import opened Schema
  import opened Encoding
  import opened Decoding
  import Merging

  // ----- what the encoder can see --------------------------------------------

  /** The contents with strings cut at their terminator and defaults behind has flags
      that are false. */
  function CanonValue(c: Config, f: Field, v: Value): Value
    requires ValueTyped(c, f, v)
    decreases f, 0
  {
    if f.ltype.StringT? then Raw(CString(v.b))
    else if f.ltype.SubmessageT? then Struct(CanonMessage(c, f.ltype.sub, v.slots))
    else v
  }

  function CanonItems(c: Config, f: Field, items: seq<Value>): (r: seq<Value>)
    requires forall k :: 0 <= k < |items| ==> ValueTyped(c, f, items[k])
    ensures |r| == |items|
    decreases f, 1
  {
    seq(|items|, k requires 0 <= k < |items| => CanonValue(c, f, items[k]))
  }

  function CanonSlot(c: Config, f: Field, s: Slot): Slot
    requires SlotTyped(c, f, s)
    decreases f, 2
  {
    match s
    case Single(v) => Single(CanonValue(c, f, v))
    case Maybe(has, v) => if has then Maybe(true, CanonValue(c, f, v)) else DefaultSlot(f)
    case Many(items) => Many(CanonItems(c, f, items))
    case Choice(member) => if member.None? then s else Choice(Some(CanonValue(c, f, member.value)))
  }

  function CanonMessage(c: Config, m: Message, slots: seq<Slot>): (r: seq<Slot>)
    requires Typed(c, m, slots)
    ensures |r| == |slots|
    decreases m
  {
    seq(|slots|, i requires 0 <= i < |slots| => CanonSlot(c, m.fields[i], slots[i]))
  }

  // ----- what decoding gives back --------------------------------------------

  /** A zero that is not written, for want of a has flag. */
  predicate Unwritten(c: Config, f: Field, s: Slot)
    requires SlotTyped(c, f, s)
  {
    f.htype == Optional(false) && (assert ValueTyped(c, f, s.v); IsZero(f, s.v))
  }

  /** As above, except that an unwritten zero comes back as the field's default. */
  function RebuiltValue(c: Config, f: Field, v: Value): Value
    requires ValueTyped(c, f, v)
    decreases f, 0
  {
    if f.ltype.StringT? then Raw(CString(v.b))
    else if f.ltype.SubmessageT? then Struct(RebuiltMessage(c, f.ltype.sub, v.slots))
    else v
  }

  function RebuiltItems(c: Config, f: Field, items: seq<Value>): (r: seq<Value>)
    requires forall k :: 0 <= k < |items| ==> ValueTyped(c, f, items[k])
    ensures |r| == |items|
    decreases f, 1
  {
    seq(|items|, k requires 0 <= k < |items| => RebuiltValue(c, f, items[k]))
  }

  function RebuiltSlot(c: Config, f: Field, s: Slot): Slot
    requires SlotTyped(c, f, s)
    decreases f, 2
  {
    if Unwritten(c, f, s) then Single(f.default)
    else
      match s
      case Single(v) => Single(RebuiltValue(c, f, v))
      case Maybe(has, v) => if has then Maybe(true, RebuiltValue(c, f, v)) else DefaultSlot(f)
      case Many(items) => Many(RebuiltItems(c, f, items))
      case Choice(member) => if member.None? then s else Choice(Some(RebuiltValue(c, f, member.value)))
  }

  function RebuiltMessage(c: Config, m: Message, slots: seq<Slot>): (r: seq<Slot>)
    requires Typed(c, m, slots)
    ensures |r| == |slots|
    decreases m
  {
    seq(|slots|, i requires 0 <= i < |slots| => RebuiltSlot(c, m.fields[i], slots[i]))
  }

  /** At every depth, a zero that is not written is the field's default. */
  predicate KeptValue(c: Config, f: Field, v: Value)
    requires ValueTyped(c, f, v)
    decreases f, 0
  {
    f.ltype.SubmessageT? ==> Kept(c, f.ltype.sub, v.slots)
  }

  predicate KeptSlot(c: Config, f: Field, s: Slot)
    requires SlotTyped(c, f, s)
    decreases f, 1
  {
    match s
    case Single(v) => if Unwritten(c, f, s) then f.default == CanonValue(c, f, v) else KeptValue(c, f, v)
    case Maybe(has, v) => has ==> KeptValue(c, f, v)
    case Many(items) => forall k :: 0 <= k < |items| ==> KeptValue(c, f, items[k])
    case Choice(member) => member.Some? ==> KeptValue(c, f, member.value)
  }

  predicate Kept(c: Config, m: Message, slots: seq<Slot>)
    requires Typed(c, m, slots)
    decreases m
  {
    forall i :: 0 <= i < |slots| ==> KeptSlot(c, m.fields[i], slots[i])
  }

  lemma {:induction false} RebuiltExactly(c: Config, m: Message, slots: seq<Slot>)
    requires Typed(c, m, slots)
    ensures RebuiltMessage(c, m, slots) == CanonMessage(c, m, slots) <==> Kept(c, m, slots)
    decreases m
  {
    hide SlotTyped, RebuiltSlot, CanonSlot, KeptSlot;
    var r, t := RebuiltMessage(c, m, slots), CanonMessage(c, m, slots);
    forall i | 0 <= i < |slots| ensures r[i] == t[i] <==> KeptSlot(c, m.fields[i], slots[i]) {
      RebuiltSlotExactly(c, m.fields[i], slots[i]);
    }
    assert r == t <==> forall i :: 0 <= i < |slots| ==> r[i] == t[i];
  }

  lemma {:induction false} RebuiltValueExactly(c: Config, f: Field, v: Value)
    requires ValueTyped(c, f, v)
    ensures RebuiltValue(c, f, v) == CanonValue(c, f, v) <==> KeptValue(c, f, v)
    decreases f, 0
  {
    if f.ltype.SubmessageT? {
      RebuiltExactly(c, f.ltype.sub, v.slots);
    }
  }

  lemma {:induction false} RebuiltSlotExactly(c: Config, f: Field, s: Slot)
    requires SlotTyped(c, f, s)
    ensures RebuiltSlot(c, f, s) == CanonSlot(c, f, s) <==> KeptSlot(c, f, s)
    decreases f, 1
  {
    hide ValueTyped, RebuiltValue, CanonValue, KeptValue, IsZero, DefaultValue;
    match s
    case Single(v) => RebuiltValueExactly(c, f, v);
    case Maybe(has, v) => RebuiltValueExactly(c, f, v);
    case Many(items) =>
      var r, t := RebuiltItems(c, f, items), CanonItems(c, f, items);
      forall k | 0 <= k < |items| ensures r[k] == t[k] <==> KeptValue(c, f, items[k]) {
        RebuiltValueExactly(c, f, items[k]);
      }
      assert r == t <==> forall k :: 0 <= k < |items| ==> r[k] == t[k];
    case Choice(member) =>
      if member.Some? {
        RebuiltValueExactly(c, f, member.value);
      }
  }

  // ----- strings with a terminator ----------------------------------------

  /** Strings have their terminator within the field's memory. */
  predicate ValueTerminated(c: Config, f: Field, v: Value)
    requires ValueTyped(c, f, v)
    decreases f, 0
  {
    && (f.ltype.StringT? ==> |CString(v.b)| < f.dataSize)
    && (f.ltype.SubmessageT? ==> Terminated(c, f.ltype.sub, v.slots))
  }

  predicate SlotTerminated(c: Config, f: Field, s: Slot)
    requires SlotTyped(c, f, s)
    decreases f, 1
  {
    match s
    case Single(v) => Unwritten(c, f, s) || ValueTerminated(c, f, v)
    case Maybe(has, v) => has ==> ValueTerminated(c, f, v)
    case Many(items) => forall k :: 0 <= k < |items| ==> ValueTerminated(c, f, items[k])
    case Choice(member) => member.Some? ==> ValueTerminated(c, f, member.value)
  }

  predicate Terminated(c: Config, m: Message, slots: seq<Slot>)
    requires Typed(c, m, slots)
    decreases m
  {
    forall i :: 0 <= i < |slots| ==> SlotTerminated(c, m.fields[i], slots[i])
  }

  // ----- scalars -------------------------------------------------------------

  lemma FromVarintOfEncoded(f: Field, i: int)
    requires f.ltype.VarintT? && FitsSigned(i, f.dataSize)
    ensures ToWord(i) < WORD64 && FromVarint(f, ToWord(i)) == Some(i)
  {
    if f.dataSize != 8 && i < 0 {
      assert ToWord(i) % WORD32 == i + WORD32;
    }
  }

  lemma FixedRoundTrip(v: nat, n: nat, rest: seq<byte>)
    requires (n == 4 || n == 8) && FitsUnsigned(v, n)
    ensures Fixed(Little(v, n) + rest, n) == Some((Int(v), rest))
  {
    hide Little, FromLittle;
    WordsInBytes();
    LittleRoundTrip(v, n);
    assert (Little(v, n) + rest)[..n] == Little(v, n);
    assert (Little(v, n) + rest)[n..] == rest;
  }

  lemma ScalarRoundTrip(c: Config, f: Field, v: Value, rest: seq<byte>)
    requires FieldWellFormed(c, f) && ValueTyped(c, f, v) && Packable(f.ltype)
    requires EncodeValue(c, f, v).Some?
    ensures DecodeValue(c, f, [], EncodeValue(c, f, v).value + rest) == Some((v, rest))
  {
    hide Encode, Parse, Little, Fixed, FromVarint;
    match f.ltype
    case Fixed32T => FixedRoundTrip(v.i, 4, rest);
    case Fixed64T => FixedRoundTrip(v.i, 8, rest);
    case VarintT =>
      FromVarintOfEncoded(f, v.i);
      Word(ToWord(v.i), rest);
    case UvarintT =>
      assert FromVarint(f, v.i) == Some(v.i) by { FromVarintU(f, v.i); }
      Word(v.i, rest);
    case SvarintT =>
      ZigZagRoundTrip(v.i);
      assert FromVarint(f, ZigZag(v.i)) == Some(v.i) by { FromVarintS(f, v.i); }
      Word(ZigZag(v.i), rest);
  }

  lemma Word(n: nat, rest: seq<byte>)
    requires n < WORD64
    ensures Decode64(Encode(n) + rest) == Some((n, |Encode(n)|)) && (Encode(n) + rest)[|Encode(n)|..] == rest
  {
    RoundTrip64(n, rest);
  }

  lemma FromVarintU(f: Field, i: nat)
    requires f.ltype.UvarintT? && FitsUnsigned(i, f.dataSize)
    ensures FromVarint(f, i) == Some(i)
  {}

  lemma FromVarintS(f: Field, i: int)
    requires f.ltype.SvarintT? && FitsSigned(i, f.dataSize)
    ensures FromVarint(f, ZigZag(i)) == Some(i)
  {
    ZigZagRoundTrip(i);
  }

  // ----- values --------------------------------------------------------------

  lemma {:induction false} ValueRoundTrip(c: Config, f: Field, v: Value, rest: seq<byte>)
    requires FieldWellFormed(c, f) && ValueTyped(c, f, v) && ValueTerminated(c, f, v)
    requires EncodeValue(c, f, v).Some? && |EncodeValue(c, f, v).value| < WORD32
    ensures DecodeFresh(c, f, EncodeValue(c, f, v).value + rest) == Some((RebuiltValue(c, f, v), rest))
    decreases f, 0, 1
  {
    hide Encode, Parse, Substream, Delimited;
    if Packable(f.ltype) {
      ScalarRoundTrip(c, f, v, rest);
    } else {
      DelimitedRoundTrip(c, f, v, rest);
    }
  }

  lemma {:induction false} DelimitedRoundTrip(c: Config, f: Field, v: Value, rest: seq<byte>)
    requires FieldWellFormed(c, f) && ValueTyped(c, f, v) && ValueTerminated(c, f, v)
    requires EncodeValue(c, f, v).Some? && |EncodeValue(c, f, v).value| < WORD32 && !Packable(f.ltype)
    ensures DecodeFresh(c, f, EncodeValue(c, f, v).value + rest) == Some((RebuiltValue(c, f, v), rest))
    decreases f, 0, 0
  {
    hide Encode, Parse, Substream;
    FreshTyped(c, f);
    match f.ltype
    case SubmessageT(sub) =>
      var body := EncodeMessage(c, sub, v.slots).value;
      Merging.SubstreamOfDelimited(body, rest);
      MessageRoundTrip(c, sub, v.slots);
    case StringT => Merging.SubstreamOfDelimited(CString(v.b), rest);
    case BytesT => Merging.SubstreamOfDelimited(v.b, rest);
    case FixedBytesT =>
      Merging.SubstreamOfDelimited(v.b, rest);
      assert v.b == [] ==> Zero(f) == v;
  }

  // ----- records of a message ------------------------------------------------

  lemma HeadOfTag(wt: nat, tag: nat, rest: seq<byte>)
    requires 0 < tag < 0x2000_0000 && wt < 8
    ensures DecodeTag(Tag(wt, tag) + rest) == Tagged(tag, wt, rest)
  {
    hide Encode, Parse;
    RoundTrip32(8 * tag + wt, rest);
    assert (Tag(wt, tag) + rest)[|Tag(wt, tag)|..] == rest;
  }

  lemma LookupOwn(m: Message, i: nat)
    requires DistinctTags(m) && i < |m.fields|
    ensures Lookup(m, m.fields[i].tag) == i
  {
    hide LookupFrom;
  }

  lemma SlotIsTyped(c: Config, m: Message, slots: seq<Slot>, i: nat)
    requires Typed(c, m, slots) && i < |m.fields|
    ensures |slots| == |m.fields| && SlotTyped(c, m.fields[i], slots[i])
  {}

  /** The state after field i has taken new contents. */
  function Stored(m: Message, st: State, i: nat, s: Slot): State
    requires i < |st.slots| == |m.fields|
  {
    State(Store(m, st.slots, i, s), if m.fields[i].htype.Required? then st.seen + {i} else st.seen)
  }

  /** The loop takes one record at a time. */
  lemma RecordTaken(c: Config, m: Message, st: State, i: nat, wt: nat, payload: seq<byte>, s: Slot, rest: seq<byte>)
    requires WellFormed(c, m) && Typed(c, m, st.slots) && i < |m.fields| && wt < 8
    requires FieldWellFormed(c, m.fields[i]) && |st.slots| == |m.fields| && SlotTyped(c, m.fields[i], st.slots[i])
    requires DecodeSlot(c, m.fields[i], st.slots[i], wt, payload + rest) == Some((s, rest))
    ensures Typed(c, m, Stored(m, st, i, s).slots)
    ensures Loop(c, m, st, Tag(wt, m.fields[i].tag) + payload + rest) == Loop(c, m, Stored(m, st, i, s), rest)
  {
    hide Tag, DecodeTag, DecodeSlot, Lookup, Typed, SlotTyped, Skip;
    var f := m.fields[i];
    SlotIsTyped(c, m, st.slots, i);
    HeadOfTag(wt, f.tag, payload + rest);
    LookupOwn(m, i);
    var b := Tag(wt, f.tag) + payload + rest;
    assert b == Tag(wt, f.tag) + (payload + rest);
    assert Step(c, m, st, f.tag, wt, payload + rest) == Some((Stored(m, st, i, s), rest));
    assert b != [];
  }

  /** The state with field i holding s and nothing else changed. */
  function With(m: Message, st: State, i: nat, s: Slot): State
    requires i < |st.slots| == |m.fields|
  {
    State(st.slots[i := s], if m.fields[i].htype.Required? then st.seen + {i} else st.seen)
  }

  /** No other member of field i's oneof is present. */
  predicate Alone(m: Message, slots: seq<Slot>, i: nat)
    requires i < |slots| == |m.fields|
  {
    forall j :: 0 <= j < |slots| && j != i && SameOneof(m, i, j) ==> slots[j] == Choice(None)
  }

  lemma StoredAlone(m: Message, st: State, i: nat, s: Slot)
    requires i < |st.slots| == |m.fields| && Alone(m, st.slots, i)
    ensures Stored(m, st, i, s) == With(m, st, i, s)
  {
    assert Store(m, st.slots, i, s) == st.slots[i := s];
  }

  lemma {:induction false} PackedRoundTrip(c: Config, f: Field, done: seq<Value>, items: seq<Value>)
    requires FieldWellFormed(c, f) && Packable(f.ltype) && |done| + |items| <= f.arraySize
    requires forall k :: 0 <= k < |done| ==> ValueTyped(c, f, done[k])
    requires forall k :: 0 <= k < |items| ==> ValueTyped(c, f, items[k])
    requires EncodeItems(c, f, items, false).Some?
    ensures DecodePacked(c, f, done, EncodeItems(c, f, items, false).value) == Some(done + items)
    decreases |items|
  {
    hide FieldWellFormed, ValueTyped, EncodeValue, DecodeValue;
    if items != [] {
      var rest := EncodeItems(c, f, items[1..], false).value;
      ScalarRoundTrip(c, f, items[0], rest);
      PackedRoundTrip(c, f, done + [items[0]], items[1..]);
      assert done + [items[0]] + items[1..] == done + items;
    } else {
      assert done + items == done;
    }
  }

  lemma RebuiltCons(c: Config, f: Field, prior: seq<Value>, items: seq<Value>)
    requires items != [] && forall k :: 0 <= k < |items| ==> ValueTyped(c, f, items[k])
    ensures prior + [RebuiltValue(c, f, items[0])] + RebuiltItems(c, f, items[1..]) == prior + RebuiltItems(c, f, items)
  {
    hide RebuiltValue, ValueTyped;
  }

  lemma {:induction false} TaggedItems(c: Config, m: Message, st: State, i: nat, prior: seq<Value>, items: seq<Value>,
                                       rest: seq<byte>)
    requires WellFormed(c, m) && Typed(c, m, st.slots) && i < |m.fields|
    requires var f := m.fields[i];
      && FieldWellFormed(c, f) && f.htype.Repeated? && !Packable(f.ltype)
      && st.slots[i] == Many(prior) && |prior| + |items| <= f.arraySize
      && (forall k :: 0 <= k < |items| ==> ValueTyped(c, f, items[k]) && ValueTerminated(c, f, items[k]))
      && EncodeItems(c, f, items, true).Some? && |EncodeItems(c, f, items, true).value| < WORD32
    ensures Typed(c, m, st.slots[i := Many(prior + RebuiltItems(c, m.fields[i], items))])
    ensures Loop(c, m, st, EncodeItems(c, m.fields[i], items, true).value + rest)
         == Loop(c, m, With(m, st, i, Many(prior + RebuiltItems(c, m.fields[i], items))), rest)
    decreases m.fields[i], 1, |items|
  {
    hide FieldWellFormed, WellFormed, ValueTyped, ValueTerminated, EncodeValue, DecodeFresh, Loop, Typed, Tag,
         SlotTyped, RebuiltValue;
    var f := m.fields[i];
    SlotIsTyped(c, m, st.slots, i);
    if items == [] {
      assert prior + RebuiltItems(c, f, items) == prior;
      assert st.slots[i := Many(prior)] == st.slots;
      assert [] + rest == rest;
    } else {
      var v := items[0];
      var e := EncodeValue(c, f, v).value;
      var more := EncodeItems(c, f, items[1..], true).value;
      ValueRoundTrip(c, f, v, more + rest);
      var s := Many(prior + [RebuiltValue(c, f, v)]);
      assert DecodeSlot(c, f, st.slots[i], WT_STRING, e + (more + rest)) == Some((s, more + rest)) by {
        AppendItem(c, f, prior, v, e + (more + rest));
      }
      RecordTaken(c, m, st, i, WT_STRING, e, s, more + rest);
      StoredAlone(m, st, i, s);
      TaggedItems(c, m, With(m, st, i, s), i, prior + [RebuiltValue(c, f, v)], items[1..], rest);
      RebuiltCons(c, f, prior, items);
      assert EncodeItems(c, f, items, true).value + rest == Tag(WT_STRING, f.tag) + e + (more + rest);
      assert st.slots[i := s][i := Many(prior + RebuiltItems(c, f, items))]
        == st.slots[i := Many(prior + RebuiltItems(c, f, items))];
    }
  }

  lemma AppendItem(c: Config, f: Field, prior: seq<Value>, v: Value, b: seq<byte>)
    requires FieldWellFormed(c, f) && f.htype.Repeated? && !Packable(f.ltype)
    requires SlotTyped(c, f, Many(prior)) && |prior| < f.arraySize
    ensures var p := DecodeFresh(c, f, b);
      DecodeSlot(c, f, Many(prior), WT_STRING, b)
        == if p.None? then None else Some((Many(prior + [p.value.0]), p.value.1))
  {
    hide DecodeFresh, FieldWellFormed, ValueTyped;
    assert DecodeArray(c, f, prior, WT_STRING, b)
      == var p := DecodeFresh(c, f, b); if p.None? then None else Some((prior + [p.value.0], p.value.1));
  }

  /** The field's contents that decoding one value leaves, from the defaults. */
  function Filled(f: Field, v: Value): Slot
    requires !f.htype.Repeated?
  {
    match f.htype
    case Required => Single(v)
    case Optional(hasFlag) => if hasFlag then Maybe(true, v) else Single(v)
    case Oneof(_) => Choice(Some(v))
  }

  lemma FillSlot(c: Config, f: Field, wt: nat, b: seq<byte>)
    requires FieldWellFormed(c, f) && !f.htype.Repeated? && SlotTyped(c, f, DefaultSlot(f))
    ensures var p := DecodeFresh(c, f, b);
      DecodeSlot(c, f, DefaultSlot(f), wt, b) == if p.None? then None else Some((Filled(f, p.value.0), p.value.1))
  {
    hide FieldWellFormed, DecodeValue;
    FreshTyped(c, f);
    if !f.htype.Oneof? {
      assert ValueTyped(c, f, DefaultValue(f));
      assert DecodeOver(c, f, DefaultValue(f), b) == DecodeFresh(c, f, b);
    }
  }

  lemma {:induction false} SingularRoundTrip(c: Config, m: Message, st: State, i: nat, v: Value, rest: seq<byte>)
    requires WellFormed(c, m) && Typed(c, m, st.slots) && i < |m.fields|
    requires var f := m.fields[i];
      && FieldWellFormed(c, f) && !f.htype.Repeated?
      && st.slots[i] == DefaultSlot(f) && Alone(m, st.slots, i)
      && ValueTyped(c, f, v) && ValueTerminated(c, f, v)
      && EncodeTagged(c, f, v).Some? && |EncodeTagged(c, f, v).value| < WORD32
    ensures var s := Filled(m.fields[i], RebuiltValue(c, m.fields[i], v));
      && Typed(c, m, st.slots[i := s])
      && Loop(c, m, st, EncodeTagged(c, m.fields[i], v).value + rest) == Loop(c, m, With(m, st, i, s), rest)
    decreases m.fields[i], 1, 0
  {
    hide FieldWellFormed, WellFormed, ValueTyped, ValueTerminated, EncodeValue, DecodeFresh, DecodeSlot, Loop, Typed,
         Tag, SlotTyped, RebuiltValue, DefaultSlot, Filled;
    var f := m.fields[i];
    var e := EncodeValue(c, f, v).value;
    var wt := WireType(f.ltype);
    SlotIsTyped(c, m, st.slots, i);
    ValueRoundTrip(c, f, v, rest);
    FillSlot(c, f, wt, e + rest);
    var s := Filled(f, RebuiltValue(c, f, v));
    RecordTaken(c, m, st, i, wt, e, s, rest);
    StoredAlone(m, st, i, s);
  }

  lemma {:induction false} ArrayRoundTrip(c: Config, m: Message, st: State, i: nat, items: seq<Value>, rest: seq<byte>)
    requires WellFormed(c, m) && Typed(c, m, st.slots) && i < |m.fields|
    requires var f := m.fields[i];
      && FieldWellFormed(c, f) && f.htype.Repeated?
      && st.slots[i] == Many([])
      && (forall k :: 0 <= k < |items| ==> ValueTyped(c, f, items[k]) && ValueTerminated(c, f, items[k]))
      && EncodeArray(c, f, items).Some? && |EncodeArray(c, f, items).value| < WORD32
    ensures var s := Many(RebuiltItems(c, m.fields[i], items));
      && Typed(c, m, st.slots[i := s])
      && Loop(c, m, st, EncodeArray(c, m.fields[i], items).value + rest) == Loop(c, m, With(m, st, i, s), rest)
    decreases m.fields[i], 2, 0
  {
    hide FieldWellFormed, WellFormed, ValueTyped, ValueTerminated, DecodeSlot, Loop, Typed, Tag, SlotTyped,
         RebuiltValue, EncodeItems;
    var f := m.fields[i];
    var s := Many(RebuiltItems(c, f, items));
    SlotIsTyped(c, m, st.slots, i);
    if items == [] {
      assert RebuiltItems(c, f, items) == [];
      assert st.slots[i := Many([])] == st.slots;
      assert [] + rest == rest;
    } else if Packable(f.ltype) {
      var body := EncodeItems(c, f, items, false).value;
      PackedSlot(c, f, items, rest);
      RecordTaken(c, m, st, i, WT_STRING, Delimited(body), s, rest);
      StoredAlone(m, st, i, s);
    } else {
      TaggedItems(c, m, st, i, [], items, rest);
      assert [] + RebuiltItems(c, f, items) == RebuiltItems(c, f, items);
    }
  }

  lemma PackedSlot(c: Config, f: Field, items: seq<Value>, rest: seq<byte>)
    requires FieldWellFormed(c, f) && f.htype.Repeated? && Packable(f.ltype) && SlotTyped(c, f, Many([]))
    requires forall k :: 0 <= k < |items| ==> ValueTyped(c, f, items[k])
    requires |items| <= f.arraySize && EncodeItems(c, f, items, false).Some?
    requires |EncodeItems(c, f, items, false).value| < WORD32
    ensures DecodeSlot(c, f, Many([]), WT_STRING, Delimited(EncodeItems(c, f, items, false).value) + rest)
         == Some((Many(RebuiltItems(c, f, items)), rest))
  {
    hide FieldWellFormed, ValueTyped, DecodePacked, Substream, Delimited;
    var body := EncodeItems(c, f, items, false).value;
    var b := Delimited(body) + rest;
    Merging.SubstreamOfDelimited(body, rest);
    PackedRoundTrip(c, f, [], items);
    assert [] + items == items;
    assert RebuiltItems(c, f, items) == items;
    assert DecodeArray(c, f, [], WT_STRING, b) == Some((items, rest));
  }

  // ----- whole messages ------------------------------------------------------

  /** The struct after the first i fields have been decoded. */
  function Progress(c: Config, m: Message, slots: seq<Slot>, i: nat): (r: seq<Slot>)
    requires Typed(c, m, slots) && i <= |slots|
    ensures |r| == |slots|
  {
    RebuiltMessage(c, m, slots)[..i] + Defaults(m)[i..]
  }

  function RequiredBefore(m: Message, i: nat): set<nat>
    requires i <= |m.fields|
  {
    set j: nat | j < i && m.fields[j].htype.Required?
  }

  lemma {:induction false} RebuiltTyped(c: Config, m: Message, slots: seq<Slot>)
    requires WellFormed(c, m) && Typed(c, m, slots)
    ensures Typed(c, m, RebuiltMessage(c, m, slots))
    decreases m
  {
    forall i | 0 <= i < |slots| ensures SlotTyped(c, m.fields[i], RebuiltSlot(c, m.fields[i], slots[i])) {
      assert FieldWellFormed(c, m.fields[i]) && SlotTyped(c, m.fields[i], slots[i]);
      RebuiltSlotTyped(c, m.fields[i], slots[i]);
    }
  }

  lemma {:induction false} RebuiltValueTyped(c: Config, f: Field, v: Value)
    requires FieldWellFormed(c, f) && ValueTyped(c, f, v)
    ensures ValueTyped(c, f, RebuiltValue(c, f, v))
    decreases f, 0
  {
    if f.ltype.SubmessageT? {
      RebuiltTyped(c, f.ltype.sub, v.slots);
    }
  }

  lemma {:induction false} RebuiltSlotTyped(c: Config, f: Field, s: Slot)
    requires FieldWellFormed(c, f) && SlotTyped(c, f, s)
    ensures SlotTyped(c, f, RebuiltSlot(c, f, s))
    decreases f, 1
  {
    hide FieldWellFormed, ValueTyped, RebuiltValue, DefaultValue;
    match s
    case Single(v) =>
      RebuiltValueTyped(c, f, v);
      FieldDefaultTyped(c, f);
    case Maybe(has, v) =>
      RebuiltValueTyped(c, f, v);
      DefaultValueTyped(c, f);
    case Many(items) =>
      forall k | 0 <= k < |items| ensures ValueTyped(c, f, RebuiltItems(c, f, items)[k]) {
        RebuiltValueTyped(c, f, items[k]);
      }
    case Choice(member) =>
      if member.Some? {
        RebuiltValueTyped(c, f, member.value);
      }
  }

  lemma FieldDefaultTyped(c: Config, f: Field)
    requires FieldWellFormed(c, f)
    ensures f.htype == Optional(false) ==> ValueTyped(c, f, f.default)
  {}

  lemma DefaultValueTyped(c: Config, f: Field)
    requires FieldWellFormed(c, f)
    ensures ValueTyped(c, f, DefaultValue(f))
  {
    FreshTyped(c, f);
  }

  lemma DefaultsHaveNoMember(m: Message)
    ensures forall i :: 0 <= i < |m.fields| && Defaults(m)[i].Choice? ==> Defaults(m)[i].member.None?
  {
    hide DefaultValue;
  }

  lemma ProgressTyped(c: Config, m: Message, slots: seq<Slot>, i: nat)
    requires WellFormed(c, m) && Typed(c, m, slots) && i <= |slots|
    ensures Typed(c, m, Progress(c, m, slots, i))
  {
    hide SlotTyped, RebuiltMessage, Defaults, FieldWellFormed;
    RebuiltTyped(c, m, slots);
    DefaultsTyped(c, m);
    DefaultsHaveNoMember(m);
    var p, r := Progress(c, m, slots, i), RebuiltMessage(c, m, slots);
    assert forall j :: 0 <= j < i ==> p[j] == r[j];
    assert forall j :: i <= j < |p| ==> p[j] == Defaults(m)[j];
  }

  lemma ProgressNext(c: Config, m: Message, slots: seq<Slot>, i: nat)
    requires Typed(c, m, slots) && i < |slots|
    ensures Progress(c, m, slots, i)[i] == DefaultSlot(m.fields[i])
    ensures Progress(c, m, slots, i)[i := RebuiltSlot(c, m.fields[i], slots[i])] == Progress(c, m, slots, i + 1)
  {
    hide SlotTyped, RebuiltSlot, DefaultSlot;
  }

  lemma ProgressAlone(c: Config, m: Message, slots: seq<Slot>, i: nat)
    requires Typed(c, m, slots) && i < |slots|
    requires slots[i].Choice? ==> slots[i].member.Some?
    ensures Alone(m, Progress(c, m, slots, i), i)
  {
    hide ValueTyped, ValueTerminated, RebuiltValue, DefaultValue;
    var p := Progress(c, m, slots, i);
    forall j | 0 <= j < |slots| && j != i && SameOneof(m, i, j) ensures p[j] == Choice(None) {
      assert SlotTyped(c, m.fields[i], slots[i]) && SlotTyped(c, m.fields[j], slots[j]);
      if j < i {
        assert SameOneof(m, j, i);
        assert p[j] == RebuiltSlot(c, m.fields[j], slots[j]);
      } else {
        assert p[j] == DefaultSlot(m.fields[j]);
      }
    }
  }

  lemma UnwrittenIsDefault(c: Config, f: Field, s: Slot)
    requires FieldWellFormed(c, f) && SlotTyped(c, f, s) && f.htype == Optional(false)
    ensures !f.ltype.SubmessageT? && (if Packable(f.ltype) then s.v.Int? else s.v.Raw?)
    ensures Unwritten(c, f, s) <==> IsZero(f, s.v)
    ensures DefaultSlot(f) == Single(f.default)
  {
    assert ValueTyped(c, f, s.v);
    assert DefaultValue(f) == f.default;
  }

  /** Decoding one field's bytes, from the defaults. */
  lemma {:induction false} FieldRoundTrip(c: Config, m: Message, st: State, i: nat, s: Slot, rest: seq<byte>)
    requires WellFormed(c, m) && Typed(c, m, st.slots) && i < |m.fields|
    requires var f := m.fields[i];
      && FieldWellFormed(c, f) && SlotTyped(c, f, s) && SlotTerminated(c, f, s)
      && st.slots[i] == DefaultSlot(f)
      && (!f.htype.Oneof? || s.member.Some? ==> Alone(m, st.slots, i))
      && EncodeField(c, f, s).Some? && |EncodeField(c, f, s).value| < WORD32
    ensures var t := RebuiltSlot(c, m.fields[i], s);
      && Typed(c, m, st.slots[i := t])
      && Loop(c, m, st, EncodeField(c, m.fields[i], s).value + rest) == Loop(c, m, With(m, st, i, t), rest)
    decreases m.fields[i], 3, 0
  {
    hide FieldWellFormed, WellFormed, ValueTyped, ValueTerminated, EncodeTagged, EncodeArray, Loop, Typed,
         RebuiltValue, RebuiltItems, DefaultValue, IsZero;
    var f := m.fields[i];
    SlotIsTyped(c, m, st.slots, i);
    match f.htype
    case Required => SingularRoundTrip(c, m, st, i, s.v, rest);
    case Repeated => ArrayRoundTrip(c, m, st, i, s.items, rest);
    case Oneof(_) =>
      if s.member.Some? {
        SingularRoundTrip(c, m, st, i, s.member.value, rest);
      } else {
        NothingTaken(m, st, i, rest);
      }
    case Optional(hasFlag) =>
      if !hasFlag {
        UnwrittenIsDefault(c, f, s);
      }
      if (if hasFlag then s.has else !IsZero(f, s.v)) {
        SingularRoundTrip(c, m, st, i, s.v, rest);
      } else {
        NothingTaken(m, st, i, rest);
      }
  }

  lemma NothingTaken(m: Message, st: State, i: nat, rest: seq<byte>)
    requires i < |st.slots| == |m.fields| && !m.fields[i].htype.Required?
    ensures [] + rest == rest && With(m, st, i, st.slots[i]) == st
  {
    assert st.slots[i := st.slots[i]] == st.slots;
  }

  lemma {:induction false} FieldsRoundTrip(c: Config, m: Message, slots: seq<Slot>, i: nat)
    requires WellFormed(c, m) && Typed(c, m, slots) && Terminated(c, m, slots) && i <= |slots|
    requires EncodeFrom(c, m, slots, i).Some? && |EncodeFrom(c, m, slots, i).value| < WORD32
    ensures Typed(c, m, Progress(c, m, slots, i))
    ensures Loop(c, m, State(Progress(c, m, slots, i), RequiredBefore(m, i)), EncodeFrom(c, m, slots, i).value)
         == Some(Stop(State(RebuiltMessage(c, m, slots), RequiredBefore(m, |slots|)), [], true))
    decreases m, |slots| - i
  {
    hide WellFormed, FieldWellFormed, SlotTyped, SlotTerminated, EncodeField, RebuiltSlot, DefaultSlot, Step,
         DecodeTag, Alone;
    ProgressTyped(c, m, slots, i);
    var st := State(Progress(c, m, slots, i), RequiredBefore(m, i));
    if i == |slots| {
      assert st.slots == RebuiltMessage(c, m, slots);
    } else {
      FieldIsFine(c, m, slots, i);
      var rest := EncodeFrom(c, m, slots, i + 1).value;
      ProgressNext(c, m, slots, i);
      FieldRoundTrip(c, m, st, i, slots[i], rest);
      assert RequiredBefore(m, i + 1)
        == if m.fields[i].htype.Required? then RequiredBefore(m, i) + {i} else RequiredBefore(m, i);
      FieldsRoundTrip(c, m, slots, i + 1);
    }
  }

  lemma FieldIsFine(c: Config, m: Message, slots: seq<Slot>, i: nat)
    requires WellFormed(c, m) && Typed(c, m, slots) && i < |slots|
    ensures var f := m.fields[i];
      && FieldWellFormed(c, f) && SlotTyped(c, f, slots[i])
      && (f.htype.Oneof? ==> slots[i].Choice?)
      && (!f.htype.Oneof? || slots[i].member.Some? ==> Alone(m, Progress(c, m, slots, i), i))
  {
    var f := m.fields[i];
    assert SlotTyped(c, f, slots[i]) && FieldWellFormed(c, f);
    if !f.htype.Oneof? || slots[i].member.Some? {
      ProgressAlone(c, m, slots, i);
    }
  }

  /** The round trip, into a struct that has been reset. */
  lemma {:induction false} MessageRoundTrip(c: Config, m: Message, slots: seq<Slot>)
    requires WellFormed(c, m) && Typed(c, m, slots) && Terminated(c, m, slots)
    requires EncodeMessage(c, m, slots).Some? && |EncodeMessage(c, m, slots).value| < WORD32
    ensures Typed(c, m, Defaults(m)) && Typed(c, m, RebuiltMessage(c, m, slots))
    ensures Loop(c, m, State(Defaults(m), {}), EncodeMessage(c, m, slots).value)
         == Some(Stop(State(RebuiltMessage(c, m, slots), RequiredBefore(m, |slots|)), [], true))
    ensures DecodeInto(c, m, Defaults(m), EncodeMessage(c, m, slots).value) == Some(RebuiltMessage(c, m, slots))
    decreases m, |slots| + 1
  {
    hide WellFormed, SlotTyped, Terminated, Loop, EncodeFrom, RebuiltMessage, Defaults;
    FieldsRoundTrip(c, m, slots, 0);
    DefaultsTyped(c, m);
    RebuiltTyped(c, m, slots);
    assert Progress(c, m, slots, 0) == Defaults(m);
    assert RequiredBefore(m, 0) == {};
  }

  // ----- unterminated strings ------------------------------------------------

  lemma {:induction false} ValueFails(c: Config, f: Field, v: Value, rest: seq<byte>)
    requires FieldWellFormed(c, f) && ValueTyped(c, f, v) && !ValueTerminated(c, f, v)
    requires EncodeValue(c, f, v).Some? && |EncodeValue(c, f, v).value| < WORD32
    ensures !Packable(f.ltype) && DecodeFresh(c, f, EncodeValue(c, f, v).value + rest).None?
    decreases f, 0
  {
    hide Encode, Parse, Substream;
    FreshTyped(c, f);
    match f.ltype
    case SubmessageT(sub) =>
      Merging.SubstreamOfDelimited(EncodeMessage(c, sub, v.slots).value, rest);
      MessageFails(c, sub, v.slots);
    case StringT => Merging.SubstreamOfDelimited(CString(v.b), rest);
  }

  /** A record that does not decode ends the loop in an error. */
  lemma RecordFails(c: Config, m: Message, st: State, i: nat, wt: nat, payload: seq<byte>, rest: seq<byte>)
    requires WellFormed(c, m) && Typed(c, m, st.slots) && i < |m.fields| && wt < 8
    requires FieldWellFormed(c, m.fields[i]) && |st.slots| == |m.fields| && SlotTyped(c, m.fields[i], st.slots[i])
    requires DecodeSlot(c, m.fields[i], st.slots[i], wt, payload + rest).None?
    ensures Loop(c, m, st, Tag(wt, m.fields[i].tag) + payload + rest).None?
  {
    hide Tag, DecodeTag, DecodeSlot, Lookup, Typed, SlotTyped, Skip;
    var f := m.fields[i];
    HeadOfTag(wt, f.tag, payload + rest);
    LookupOwn(m, i);
    assert Tag(wt, f.tag) + payload + rest == Tag(wt, f.tag) + (payload + rest);
    assert Step(c, m, st, f.tag, wt, payload + rest).None?;
  }

  lemma {:induction false} ItemsFail(c: Config, m: Message, st: State, i: nat, prior: seq<Value>, items: seq<Value>,
                                     rest: seq<byte>)
    requires WellFormed(c, m) && Typed(c, m, st.slots) && i < |m.fields|
    requires var f := m.fields[i];
      && FieldWellFormed(c, f) && f.htype.Repeated? && !Packable(f.ltype)
      && st.slots[i] == Many(prior) && |prior| + |items| <= f.arraySize
      && (forall k :: 0 <= k < |items| ==> ValueTyped(c, f, items[k]))
      && (exists k :: 0 <= k < |items| && !ValueTerminated(c, f, items[k]))
      && EncodeItems(c, f, items, true).Some? && |EncodeItems(c, f, items, true).value| < WORD32
    ensures Loop(c, m, st, EncodeItems(c, m.fields[i], items, true).value + rest).None?
    decreases m.fields[i], 1, |items|
  {
    hide FieldWellFormed, WellFormed, ValueTyped, ValueTerminated, EncodeValue, DecodeFresh, Loop, Typed, Tag,
         SlotTyped, RebuiltValue;
    var f := m.fields[i];
    SlotIsTyped(c, m, st.slots, i);
    var v := items[0];
    var e := EncodeValue(c, f, v).value;
    var more := EncodeItems(c, f, items[1..], true).value;
    assert EncodeItems(c, f, items, true).value + rest == Tag(WT_STRING, f.tag) + e + (more + rest);
    AppendItem(c, f, prior, v, e + (more + rest));
    if !ValueTerminated(c, f, v) {
      ValueFails(c, f, v, more + rest);
      RecordFails(c, m, st, i, WT_STRING, e, more + rest);
    } else {
      ValueRoundTrip(c, f, v, more + rest);
      var s := Many(prior + [RebuiltValue(c, f, v)]);
      RecordTaken(c, m, st, i, WT_STRING, e, s, more + rest);
      StoredAlone(m, st, i, s);
      var k :| 0 <= k < |items| && !ValueTerminated(c, f, items[k]);
      assert items[1..][k - 1] == items[k];
      ItemsFail(c, m, With(m, st, i, s), i, prior + [RebuiltValue(c, f, v)], items[1..], rest);
    }
  }

  lemma {:induction false} SingularFails(c: Config, m: Message, st: State, i: nat, v: Value, rest: seq<byte>)
    requires WellFormed(c, m) && Typed(c, m, st.slots) && i < |m.fields|
    requires var f := m.fields[i];
      && FieldWellFormed(c, f) && !f.htype.Repeated?
      && st.slots[i] == DefaultSlot(f) && ValueTyped(c, f, v) && !ValueTerminated(c, f, v)
      && EncodeTagged(c, f, v).Some? && |EncodeTagged(c, f, v).value| < WORD32
    ensures Loop(c, m, st, EncodeTagged(c, m.fields[i], v).value + rest).None?
    decreases m.fields[i], 1, 0
  {
    hide FieldWellFormed, WellFormed, ValueTyped, ValueTerminated, EncodeValue, DecodeFresh, DecodeSlot, Loop, Typed,
         Tag, SlotTyped, DefaultSlot, Filled;
    var f := m.fields[i];
    var e := EncodeValue(c, f, v).value;
    var wt := WireType(f.ltype);
    SlotIsTyped(c, m, st.slots, i);
    ValueFails(c, f, v, rest);
    FillSlot(c, f, wt, e + rest);
    RecordFails(c, m, st, i, wt, e, rest);
  }

  lemma {:induction false} FieldFails(c: Config, m: Message, st: State, i: nat, s: Slot, rest: seq<byte>)
    requires WellFormed(c, m) && Typed(c, m, st.slots) && i < |m.fields|
    requires var f := m.fields[i];
      && FieldWellFormed(c, f) && SlotTyped(c, f, s) && !SlotTerminated(c, f, s) && st.slots[i] == DefaultSlot(f)
      && EncodeField(c, f, s).Some? && |EncodeField(c, f, s).value| < WORD32
    ensures Loop(c, m, st, EncodeField(c, m.fields[i], s).value + rest).None?
    decreases m.fields[i], 2, 0
  {
    hide FieldWellFormed, WellFormed, ValueTyped, ValueTerminated, EncodeTagged, EncodeItems, Loop, Typed,
         DefaultValue, IsZero;
    var f := m.fields[i];
    SlotIsTyped(c, m, st.slots, i);
    match f.htype
    case Required => SingularFails(c, m, st, i, s.v, rest);
    case Oneof(_) => SingularFails(c, m, st, i, s.member.value, rest);
    case Optional(hasFlag) =>
      if !hasFlag {
        UnwrittenIsDefault(c, f, s);
      }
      SingularFails(c, m, st, i, s.v, rest);
    case Repeated =>
      var k :| 0 <= k < |s.items| && !ValueTerminated(c, f, s.items[k]);
      assert EncodeArray(c, f, s.items).Some?;
      if Packable(f.ltype) {
        ScalarIsTerminated(c, f, s.items[k]);
      }
      ItemsFail(c, m, st, i, [], s.items, rest);
  }

  lemma ScalarIsTerminated(c: Config, f: Field, v: Value)
    requires ValueTyped(c, f, v) && Packable(f.ltype)
    ensures ValueTerminated(c, f, v)
  {}

  lemma {:induction false} FieldsFail(c: Config, m: Message, slots: seq<Slot>, i: nat)
    requires WellFormed(c, m) && Typed(c, m, slots) && i <= |slots|
    requires exists j :: i <= j < |slots| && !SlotTerminated(c, m.fields[j], slots[j])
    requires EncodeFrom(c, m, slots, i).Some? && |EncodeFrom(c, m, slots, i).value| < WORD32
    ensures Typed(c, m, Progress(c, m, slots, i))
    ensures Loop(c, m, State(Progress(c, m, slots, i), RequiredBefore(m, i)), EncodeFrom(c, m, slots, i).value).None?
    decreases m, |slots| - i
  {
    hide WellFormed, FieldWellFormed, SlotTyped, SlotTerminated, EncodeField, RebuiltSlot, DefaultSlot, Loop,
         Progress, RebuiltMessage, Defaults, Alone;
    ProgressTyped(c, m, slots, i);
    var j :| i <= j < |slots| && !SlotTerminated(c, m.fields[j], slots[j]);
    var st := State(Progress(c, m, slots, i), RequiredBefore(m, i));
    FieldIsFine(c, m, slots, i);
    var rest := EncodeFrom(c, m, slots, i + 1).value;
    ProgressNext(c, m, slots, i);
    if SlotTerminated(c, m.fields[i], slots[i]) {
      FieldRoundTrip(c, m, st, i, slots[i], rest);
      assert RequiredBefore(m, i + 1)
        == if m.fields[i].htype.Required? then RequiredBefore(m, i) + {i} else RequiredBefore(m, i);
      FieldsFail(c, m, slots, i + 1);
    } else {
      FieldFails(c, m, st, i, slots[i], rest);
    }
  }

  lemma {:induction false} MessageFails(c: Config, m: Message, slots: seq<Slot>)
    requires WellFormed(c, m) && Typed(c, m, slots) && !Terminated(c, m, slots)
    requires EncodeMessage(c, m, slots).Some? && |EncodeMessage(c, m, slots).value| < WORD32
    ensures Typed(c, m, Defaults(m)) && DecodeInto(c, m, Defaults(m), EncodeMessage(c, m, slots).value).None?
    decreases m, |slots| + 1
  {
    hide WellFormed, SlotTyped, SlotTerminated, Loop, EncodeFrom, RebuiltMessage, Defaults;
    var j :| 0 <= j < |slots| && !SlotTerminated(c, m.fields[j], slots[j]);
    FieldsFail(c, m, slots, 0);
    DefaultsTyped(c, m);
    assert Progress(c, m, slots, 0) == Defaults(m);
    assert RequiredBefore(m, 0) == {};
  }

  /** pb_decode of what pb_encode wrote. It succeeds if and only if every string written
      has its terminator within its field; then it has read every byte, and what it
      rebuilds is the struct if and only if every unwritten zero is its field's default. */
  lemma DecodeOfEncode(c: Config, m: Message, slots: seq<Slot>)
    requires WellFormed(c, m) && Typed(c, m, slots)
    requires EncodeMessage(c, m, slots).Some? && |EncodeMessage(c, m, slots).value| < WORD32
    ensures var back := DecodeMessage(c, m, EncodeMessage(c, m, slots).value);
      && (back.Some? <==> Terminated(c, m, slots))
      && (back.Some? ==> back == Some(RebuiltMessage(c, m, slots)))
      && (back == Some(CanonMessage(c, m, slots)) <==> Terminated(c, m, slots) && Kept(c, m, slots))
  {
    hide WellFormed, Typed, Terminated, RebuiltMessage, CanonMessage, Kept, EncodeMessage, DecodeInto;
    RebuiltExactly(c, m, slots);
    if Terminated(c, m, slots) {
      MessageRoundTrip(c, m, slots);
    } else {
      MessageFails(c, m, slots);
    }
  }

  // ----- where it would fail -------------------------------------------------

  /** The terminator is needed: the encoder writes a string that fills its field's memory,
      and the decoder, which wants room for the zero, refuses it. */
  lemma StringRoundTripExactly(c: Config, f: Field, v: Value, rest: seq<byte>)
    requires FieldWellFormed(c, f) && f.ltype.StringT? && ValueTyped(c, f, v) && f.dataSize < WORD32
    ensures EncodeValue(c, f, v).Some?
    ensures var back := DecodeFresh(c, f, EncodeValue(c, f, v).value + rest);
      && (back.Some? <==> |CString(v.b)| < f.dataSize)
      && (back.Some? ==> back == Some((Raw(CString(v.b)), rest)))
  {
    hide Encode, Parse, Substream;
    Merging.SubstreamOfDelimited(CString(v.b), rest);
  }

  /** One field without a has flag, of any type and with any contents: it comes back if
      and only if it is written, or its default is what was there. */
  lemma ImplicitZeroExactly(c: Config, f: Field, v: Value)
    requires WellFormed(c, Message([f])) && f.htype == Optional(false)
    requires SlotTyped(c, f, Single(v)) && ValueTerminated(c, f, v)
    requires EncodeField(c, f, Single(v)).Some? && |EncodeField(c, f, Single(v)).value| < WORD32
    ensures Typed(c, Message([f]), [Single(v)])
    ensures EncodeMessage(c, Message([f]), [Single(v)]) == EncodeField(c, f, Single(v))
    ensures DecodeMessage(c, Message([f]), EncodeField(c, f, Single(v)).value) == Some([Single(CanonValue(c, f, v))])
      <==> !Unwritten(c, f, Single(v)) || f.default == CanonValue(c, f, v)
  {
    hide EncodeField, ValueTyped, ValueTerminated, CanonValue, RebuiltValue;
    var m, slots := Message([f]), [Single(v)];
    assert m.fields[0] == f && SlotTyped(c, m.fields[0], slots[0]);
    assert Typed(c, m, slots);
    OneFieldEncoded(c, m, slots);
    assert Terminated(c, m, slots) <==> SlotTerminated(c, m.fields[0], slots[0]);
    DecodeOfEncode(c, m, slots);
    assert CanonMessage(c, m, slots) == [Single(CanonValue(c, f, v))] by {
      assert CanonSlot(c, m.fields[0], slots[0]) == Single(CanonValue(c, f, v));
    }
    NotEmbedded(c, f, v);
    assert Kept(c, m, slots) <==> KeptSlot(c, m.fields[0], slots[0]);
  }

  lemma NotEmbedded(c: Config, f: Field, v: Value)
    requires FieldWellFormed(c, f) && f.htype == Optional(false) && ValueTyped(c, f, v)
    ensures KeptValue(c, f, v)
  {}

  lemma OneFieldEncoded(c: Config, m: Message, slots: seq<Slot>)
    requires Typed(c, m, slots) && |slots| == 1
    ensures SlotTyped(c, m.fields[0], slots[0])
    ensures EncodeMessage(c, m, slots) == EncodeField(c, m.fields[0], slots[0])
  {
    hide EncodeField, SlotTyped;
    assert EncodeFrom(c, m, slots, 1) == Some([]);
    var e := EncodeField(c, m.fields[0], slots[0]);
    if e.Some? {
      assert e.value + [] == e.value;
    }
    assert EncodeFrom(c, m, slots, 0) == e;
  }
}
