/**
 The decoder on input streams: every routine gives exactly what the specification in
 Decoding says, and leaves exactly the bytes it says unread.
 */
module StreamDecoder {
  import opened Common
  import opened Varint
  import opened Schema
  import opened Encoding
  import opened Decoding
  import opened InStream
  import opened FieldsSeen
  import opened Layout
  import FieldIter

  /** A routine's outcome against its specification. */
  ghost predicate Decoded<T>(spec: Option<(T, seq<byte>)>, r: Option<T>, rest: seq<byte>) {
    if spec.None? then r.None? else r == Some(spec.value.0) && rest == spec.value.1
  }

  // ----- substreams ----------------------------------------------------------

  /** pb_make_string_substream; the parent's position only moves on when it is closed. */
  method MakeSubstream(stream: IStream) returns (sub: IStream?)
    requires stream.Valid()
    modifies stream
    ensures sub == null <==> Substream(old(stream.Rest())).None?
    ensures stream.Valid() && (sub == null ==> stream.End() == old(stream.End()))
    ensures sub != null ==>
      && fresh(sub) && sub.Valid() && sub.data == stream.data && sub.End() + stream.bytesLeft == old(stream.End())
      && Substream(old(stream.Rest())) == Some((sub.Rest(), stream.data[sub.End()..old(stream.End())]))
  {
    hide Parse;
    ghost var b := stream.Rest();
    var size := stream.DecodeVarint32();
    if size.None? || stream.bytesLeft < size.value {
      return null;
    }
    ghost var end := stream.End();
    sub := new IStream(stream.data, stream.pos, size.value);
    assert stream.data[stream.pos..end][..size.value] == sub.Rest();
    assert stream.data[stream.pos..end][size.value..] == stream.data[sub.End()..end];
    stream.bytesLeft := stream.bytesLeft - size.value;
  }

  /** pb_close_string_substream: what the substream left unread is skipped. */
  method CloseSubstream(stream: IStream, sub: IStream)
    requires sub.Valid() && stream != sub && sub.data == stream.data && sub.End() + stream.bytesLeft <= |stream.data|
    modifies stream, sub
    ensures stream.Valid() && stream.pos == old(sub.End()) && stream.bytesLeft == old(stream.bytesLeft)
  {
    if sub.bytesLeft > 0 {
      var skipped := sub.ReadBytes(sub.bytesLeft);
      assert skipped.Some? && sub.Rest() == [];
    }
    stream.pos := sub.pos;
  }

  /** A length-delimited record read at once, refused when its length passes the limit. */
  method ReadRecord(stream: IStream, limit: int) returns (r: Option<seq<byte>>)
    requires stream.Valid()
    modifies stream
    ensures stream.Valid() && stream.End() == old(stream.End())
    ensures var spec := Substream(old(stream.Rest()));
      Decoded(if spec.Some? && |spec.value.0| > limit then None else spec, r, stream.Rest())
  {
    hide Parse;
    var size := stream.DecodeVarint32();
    if size.None? || size.value > limit {
      return None;
    }
    r := stream.ReadBytes(size.value);
  }

  /** The schemas whose check of required fields stays in its bounds, at every depth. */
  predicate Checkable(m: Message)
    decreases m
  {
    && Testable(FieldIter.RequiredBefore(Descs(m), |m.fields|))
    && forall i :: 0 <= i < |m.fields| ==> CheckableField(m.fields[i])
  }

  predicate CheckableField(f: Field)
    decreases f
  {
    f.ltype.SubmessageT? ==> Checkable(f.ltype.sub)
  }

  function Number(tag: nat): Field {
    Field(tag, VarintT, Required, 0, 0, 4, 0, Int(0))
  }

  /** A message of n required integers. */
  function Numbers(n: nat): (m: Message)
    ensures |m.fields| == n
  {
    Message(seq(n, i requires 0 <= i < n => Number(i + 1)))
  }

  lemma {:induction false} NumbersAreRequired(n: nat, i: nat)
    requires i <= n
    ensures FieldIter.RequiredBefore(Descs(Numbers(n)), i) == i
    decreases i
  {
    if i > 0 {
      NumbersAreRequired(n, i - 1);
    }
  }

  /** Such a message, of any number of fields the tags allow, is well formed, and checking
      it stays in its bounds if and only if its number is testable; 32 is not. */
  lemma NumbersCheckableExactly(c: Config, n: nat)
    requires c.sizeMax >= 4 && n < 0x1000_0000
    ensures WellFormed(c, Numbers(n))
    ensures Checkable(Numbers(n)) <==> Testable(n)
    ensures !Checkable(Numbers(32))
  {
    NumbersAreRequired(n, n);
    NumbersAreRequired(32, 32);
  }

  // ----- defaults ------------------------------------------------------------

  /** pb_field_set_to_default. */
  method SetFieldToDefault(c: Config, f: Field) returns (s: Slot)
    requires FieldWellFormed(c, f)
    ensures s == DefaultSlot(f)
    decreases f, 0
  {
    match f.htype
    case Repeated => return Many([]);
    case Oneof(_) => return Choice(None);
    case _ =>
      var v := f.default;
      if f.ltype.SubmessageT? {
        var slots := SetToDefaults(c, f.ltype.sub);
        v := Struct(slots);
      }
      return if f.htype == Optional(true) then Maybe(false, v) else Single(v);
  }

  /** pb_message_set_to_defaults. */
  method SetToDefaults(c: Config, m: Message) returns (slots: seq<Slot>)
    requires WellFormed(c, m)
    ensures slots == Defaults(m)
    decreases m, 0
  {
    hide DefaultSlot, FieldIter.DataAt, FieldIter.SizeAt, FieldIter.RequiredBefore, FieldIter.WellFormed;
    slots := [];
    DescsWellFormed(c, m);
    var iter := new FieldIter.Iterator(BuildOf(c), Descs(m), 0);
    if iter.CurrentTag() == 0 {
      return;
    }
    var more := true;
    while more
      invariant iter.Valid() && iter.fields == Descs(m) && fresh(iter)
      invariant |slots| == if more then iter.pos else |m.fields|
      invariant forall i :: 0 <= i < |slots| ==> i < |m.fields| && slots[i] == DefaultSlot(m.fields[i])
      decreases more, |m.fields| - iter.pos
    {
      assert FieldWellFormed(c, m.fields[iter.pos]);
      var s := SetFieldToDefault(c, m.fields[iter.pos]);
      slots := slots + [s];
      more := iter.Next();
    }
  }

  /** An embedded message's memory, reset. */
  method Reset(c: Config, f: Field) returns (slots: seq<Slot>)
    requires FieldWellFormed(c, f)
    ensures slots == Fresh(f)
  {
    slots := [];
    if f.ltype.SubmessageT? {
      slots := SetToDefaults(c, f.ltype.sub);
    }
  }

  // ----- values --------------------------------------------------------------

  method DecodeFixed(stream: IStream, n: nat) returns (r: Option<Value>)
    requires stream.Valid() && (n == 4 || n == 8)
    modifies stream
    ensures stream.Valid() && stream.End() == old(stream.End())
    ensures Decoded(Fixed(old(stream.Rest()), n), r, stream.Rest())
  {
    var b := stream.ReadBytes(n);
    return if b.None? then None else Some(Int(FromLittle(b.value)));
  }

  /** A number cast to a signed integer of the given half range: cut to its bits, and the
      top one read as the sign. */
  function CastSigned(i: int, half: nat): int
    requires half > 0
  {
    Signed(i % (2 * half), half)
  }

  function CastUnsigned(i: int, half: nat): nat
    requires half > 0
  {
    i % (2 * half)
  }

  /** A cast keeps a number if and only if the integer can hold it; so comparing the two,
      as the decoders do, is the range check. */
  lemma CastsKeepWhatFits(i: int, size: nat)
    requires IntegerSize(size)
    ensures CastSigned(i, Half(size)) == i <==> FitsSigned(i, size)
    ensures CastUnsigned(i, Half(size)) == i <==> FitsUnsigned(i, size)
  {
    match size
    case 1 => Casts8(i);
    case 2 => Casts16(i);
    case 4 => Casts32(i);
    case 8 => Casts64(i);
  }

  lemma Casts8(i: int)
    ensures CastSigned(i, 0x80) == i <==> -0x80 <= i < 0x80
    ensures CastUnsigned(i, 0x80) == i <==> 0 <= i < 0x100
  {}

  lemma Casts16(i: int)
    ensures CastSigned(i, 0x8000) == i <==> -0x8000 <= i < 0x8000
    ensures CastUnsigned(i, 0x8000) == i <==> 0 <= i < 0x1_0000
  {}

  lemma Casts32(i: int)
    ensures CastSigned(i, 0x8000_0000) == i <==> -0x8000_0000 <= i < 0x8000_0000
    ensures CastUnsigned(i, 0x8000_0000) == i <==> 0 <= i < WORD32
  {}

  lemma Casts64(i: int)
    ensures CastSigned(i, SIGN64) == i <==> Signed64(i)
    ensures CastUnsigned(i, SIGN64) == i <==> 0 <= i < WORD64
  {}

  /** The store into the field, by its size; None when there is no integer of that size. */
  method StoreSigned(size: nat, value: int) returns (clamped: Option<int>)
    ensures clamped == if IntegerSize(size) then Some(CastSigned(value, Half(size))) else None
  {
    if size == 8 {
      clamped := Some(CastSigned(value, SIGN64));
    } else if size == 4 {
      clamped := Some(CastSigned(value, 0x8000_0000));
    } else if size == 2 {
      clamped := Some(CastSigned(value, 0x8000));
    } else if size == 1 {
      clamped := Some(CastSigned(value, 0x80));
    } else {
      clamped := None;
    }
  }

  method StoreUnsigned(size: nat, value: int) returns (clamped: Option<int>)
    ensures clamped == if IntegerSize(size) then Some(CastUnsigned(value, Half(size))) else None
  {
    if size == 8 {
      clamped := Some(CastUnsigned(value, SIGN64));
    } else if size == 4 {
      clamped := Some(CastUnsigned(value, 0x8000_0000));
    } else if size == 2 {
      clamped := Some(CastUnsigned(value, 0x8000));
    } else if size == 1 {
      clamped := Some(CastUnsigned(value, 0x80));
    } else {
      clamped := None;
    }
  }

  /** The outcome the three integer decoders specify, for the bytes at the front. */
  ghost predicate DecodedInteger(f: Field, b: seq<byte>, r: Option<Value>, rest: seq<byte>) {
    var d := Decode64(b);
    var i := if d.None? then None else FromVarint(f, d.value.0);
    if i.None? then r.None? else r == Some(Int(i.value)) && rest == b[d.value.1..]
  }

  /** pb_dec_varint: numbers of up to four bytes are cast to 32 bits first. */
  method DecodeSigned(stream: IStream, f: Field) returns (r: Option<Value>)
    requires stream.Valid() && f.ltype.VarintT?
    modifies stream
    ensures stream.Valid() && stream.End() == old(stream.End())
    ensures DecodedInteger(f, old(stream.Rest()), r, stream.Rest())
  {
    hide Parse, CastSigned, CastUnsigned;
    var value := stream.DecodeVarint();
    if value.None? {
      return None;
    }
    var svalue;
    if f.dataSize == 8 {
      svalue := Signed(value.value, SIGN64);
    } else {
      svalue := Signed(value.value % WORD32, 0x8000_0000);
    }
    var clamped := StoreSigned(f.dataSize, svalue);
    if clamped.None? {
      return None;
    }
    CastsKeepWhatFits(svalue, f.dataSize);
    if clamped.value != svalue {
      return None;
    }
    return Some(Int(svalue));
  }

  /** pb_dec_uvarint. */
  method DecodeUnsigned(stream: IStream, f: Field) returns (r: Option<Value>)
    requires stream.Valid() && f.ltype.UvarintT?
    modifies stream
    ensures stream.Valid() && stream.End() == old(stream.End())
    ensures DecodedInteger(f, old(stream.Rest()), r, stream.Rest())
  {
    hide Parse, CastSigned, CastUnsigned;
    var value := stream.DecodeVarint();
    if value.None? {
      return None;
    }
    var clamped := StoreUnsigned(f.dataSize, value.value);
    if clamped.None? {
      return None;
    }
    CastsKeepWhatFits(value.value, f.dataSize);
    if clamped.value != value.value {
      return None;
    }
    return Some(Int(value.value));
  }

  /** pb_dec_svarint, with the shift and complement of pb_decode_svarint. */
  method DecodeZigZag(stream: IStream, f: Field) returns (r: Option<Value>)
    requires stream.Valid() && f.ltype.SvarintT?
    modifies stream
    ensures stream.Valid() && stream.End() == old(stream.End())
    ensures DecodedInteger(f, old(stream.Rest()), r, stream.Rest())
  {
    hide Parse, CastSigned, CastUnsigned;
    var word := stream.DecodeVarint();
    if word.None? {
      return None;
    }
    var value;
    if word.value % 2 == 1 {
      value := Signed(Complement(word.value / 2), SIGN64);
    } else {
      value := Signed(word.value / 2, SIGN64);
    }
    ZigZagByShifting(0, word.value);
    var clamped := StoreSigned(f.dataSize, value);
    if clamped.None? {
      return None;
    }
    CastsKeepWhatFits(value, f.dataSize);
    if clamped.value != value {
      return None;
    }
    return Some(Int(value));
  }

  /** The decoders of pb_dec_*. An array's items and a oneof's member go over reset memory;
      any other embedded message is merged into what is there. */
  method DecodeValueFrom(c: Config, stream: IStream, f: Field, base: seq<Slot>) returns (r: Option<Value>)
    requires stream.Valid() && FieldWellFormed(c, f) && CheckableField(f)
    requires f.ltype.SubmessageT? ==> Typed(c, f.ltype.sub, base)
    modifies stream
    ensures stream.Valid() && stream.End() == old(stream.End())
    ensures Decoded(DecodeValue(c, f, base, old(stream.Rest())), r, stream.Rest())
    decreases f, 0, 1
  {
    hide Parse, Substream, Fixed, FromVarint, Typed, WellFormed, ValueTyped, DecodeInto;
    match f.ltype
    case Fixed32T => r := DecodeFixed(stream, 4);
    case Fixed64T => r := DecodeFixed(stream, 8);
    case VarintT => r := DecodeSigned(stream, f);
    case UvarintT => r := DecodeUnsigned(stream, f);
    case SvarintT => r := DecodeZigZag(stream, f);
    case BytesT =>
      var b := ReadRecord(stream, if c.sizeMax < f.dataSize - c.sizeBytes then c.sizeMax else f.dataSize - c.sizeBytes);
      return if b.None? then None else Some(Raw(b.value));
    case StringT =>
      var b := ReadRecord(stream, f.dataSize - 1);
      return if b.None? then None else Some(Raw(b.value));
    case FixedBytesT =>
      var b := ReadRecord(stream, c.sizeMax);
      if b.None? {
        return None;
      } else if |b.value| == 0 {
        return Some(Zero(f));
      } else if |b.value| != f.dataSize {
        return None;
      }
      return Some(Raw(b.value));
    case SubmessageT(sub) => r := DecodeSubmessage(c, stream, f, base);
  }

  /** pb_dec_submessage. */
  method DecodeSubmessage(c: Config, stream: IStream, f: Field, base: seq<Slot>) returns (r: Option<Value>)
    requires stream.Valid() && FieldWellFormed(c, f) && CheckableField(f) && f.ltype.SubmessageT?
    requires Typed(c, f.ltype.sub, base)
    modifies stream
    ensures stream.Valid() && stream.End() == old(stream.End())
    ensures Decoded(DecodeValue(c, f, base, old(stream.Rest())), r, stream.Rest())
    decreases f, 0, 0
  {
    hide Parse, Substream, Typed, WellFormed, DecodeInto, Loop, Checkable;
    var sub := MakeSubstream(stream);
    if sub == null {
      return None;
    }
    ghost var end := old(stream.End());
    var slots := DecodeFrom(c, sub, f.ltype.sub, base);
    CloseSubstream(stream, sub);
    return if slots.None? then None else Some(Struct(slots.value));
  }

  // ----- fields --------------------------------------------------------------

  /** The loop over a packed array, on its substream. */
  method DecodePackedFrom(c: Config, stream: IStream, f: Field, items: seq<Value>) returns (r: Option<seq<Value>>)
    requires stream.Valid() && FieldWellFormed(c, f) && CheckableField(f) && Packable(f.ltype)
    requires forall k :: 0 <= k < |items| ==> ValueTyped(c, f, items[k])
    modifies stream
    ensures stream.Valid() && stream.End() == old(stream.End())
    ensures r == DecodePacked(c, f, items, old(stream.Rest()))
    decreases f, 1, 0
  {
    hide FieldWellFormed, ValueTyped, DecodeValue;
    var all, status := items, true;
    while stream.bytesLeft > 0 && |all| < f.arraySize
      invariant stream.Valid() && stream.End() == old(stream.End())
      invariant forall k :: 0 <= k < |all| ==> ValueTyped(c, f, all[k])
      invariant DecodePacked(c, f, all, stream.Rest()) == DecodePacked(c, f, items, old(stream.Rest()))
      decreases |stream.Rest()|
    {
      var v := DecodeValueFrom(c, stream, f, []);
      if v.None? {
        return None;
      }
      all := all + [v.value];
    }
    return if stream.bytesLeft != 0 then None else Some(all);
  }

  method DecodeArrayFrom(c: Config, stream: IStream, f: Field, items: seq<Value>, wt: nat)
    returns (r: Option<seq<Value>>)
    requires stream.Valid() && FieldWellFormed(c, f) && CheckableField(f)
    requires forall k :: 0 <= k < |items| ==> ValueTyped(c, f, items[k])
    modifies stream
    ensures stream.Valid() && stream.End() == old(stream.End())
    ensures Decoded(DecodeArray(c, f, items, wt, old(stream.Rest())), r, stream.Rest())
    decreases f, 2, 0
  {
    hide Substream, FieldWellFormed, ValueTyped, DecodeFresh, DecodePacked;
    if wt == WT_STRING && Packable(f.ltype) {
      var sub := MakeSubstream(stream);
      if sub == null {
        return None;
      }
      r := DecodePackedFrom(c, sub, f, items);
      CloseSubstream(stream, sub);
    } else {
      if |items| >= f.arraySize {
        return None;
      }
      var v := DecodeFreshFrom(c, stream, f);
      return if v.None? then None else Some(items + [v.value]);
    }
  }

  method DecodeFreshFrom(c: Config, stream: IStream, f: Field) returns (r: Option<Value>)
    requires stream.Valid() && FieldWellFormed(c, f) && CheckableField(f)
    modifies stream
    ensures stream.Valid() && stream.End() == old(stream.End())
    ensures Decoded(DecodeFresh(c, f, old(stream.Rest())), r, stream.Rest())
    decreases f, 1, 0
  {
    FreshTyped(c, f);
    var base := Reset(c, f);
    r := DecodeValueFrom(c, stream, f, base);
  }

  method DecodeOverFrom(c: Config, stream: IStream, f: Field, v: Value) returns (r: Option<Value>)
    requires stream.Valid() && FieldWellFormed(c, f) && CheckableField(f) && ValueTyped(c, f, v)
    modifies stream
    ensures stream.Valid() && stream.End() == old(stream.End())
    ensures Decoded(DecodeOver(c, f, v, old(stream.Rest())), r, stream.Rest())
    decreases f, 1, 0
  {
    r := DecodeValueFrom(c, stream, f, if f.ltype.SubmessageT? then v.slots else []);
  }

  /** decode_static_field. */
  method DecodeSlotFrom(c: Config, stream: IStream, f: Field, s: Slot, wt: nat) returns (r: Option<Slot>)
    requires stream.Valid() && FieldWellFormed(c, f) && CheckableField(f) && SlotTyped(c, f, s)
    modifies stream
    ensures stream.Valid() && stream.End() == old(stream.End())
    ensures Decoded(DecodeSlot(c, f, s, wt, old(stream.Rest())), r, stream.Rest())
    decreases f, 3, 0
  {
    hide FieldWellFormed, ValueTyped, CheckableField, DecodeOver, DecodeFresh, DecodeArray;
    match f.htype
    case Required =>
      var v := DecodeOverFrom(c, stream, f, s.v);
      return if v.None? then None else Some(Single(v.value));
    case Optional(hasFlag) =>
      var v := DecodeOverFrom(c, stream, f, s.v);
      return if v.None? then None else Some(if hasFlag then Maybe(true, v.value) else Single(v.value));
    case Repeated =>
      var items := DecodeArrayFrom(c, stream, f, s.items, wt);
      return if items.None? then None else Some(Many(items.value));
    case Oneof(_) =>
      var v := DecodeFreshFrom(c, stream, f);
      return if v.None? then None else Some(Choice(Some(v.value)));
  }

  // ----- tags and unknown fields ---------------------------------------------

  /** pb_decode_tag. */
  method DecodeTagFrom(stream: IStream) returns (ok: bool, tag: nat, wt: nat, eof: bool)
    requires stream.Valid()
    modifies stream
    ensures stream.Valid() && stream.End() == old(stream.End())
    ensures match DecodeTag(old(stream.Rest()))
      case Eof(rest) => !ok && eof && stream.Rest() == rest
      case Overlong => !ok && !eof
      case Tagged(t, w, rest) => ok && tag == t && wt == w && stream.Rest() == rest
  {
    hide Parse;
    ok, tag, wt, eof := false, 0, 0, false;
    var temp := stream.DecodeVarint32();
    if temp.None? {
      eof := stream.bytesLeft == 0;
      return;
    }
    if temp.value == 0 {
      eof := true;
      return;
    }
    ok, tag, wt := true, temp.value / 8, temp.value % 8;
  }

  /** pb_skip_varint: as many bytes as it takes. */
  method SkipVarint(stream: IStream) returns (ok: bool)
    requires stream.Valid()
    modifies stream
    ensures stream.Valid() && stream.End() == old(stream.End())
    ensures var r := Skip(WT_VARINT, old(stream.Rest()));
      if r.None? then !ok else ok && stream.Rest() == r.value
  {
    hide Parse;
    ghost var b := stream.Rest();
    ghost var k := 0;
    assert b[0..] == b;
    var more := true;
    while more
      invariant stream.Valid() && stream.End() == old(stream.End()) && k <= |b| && stream.Rest() == b[k..]
      invariant more ==> (Parse(b, |b|).Some? <==> Parse(b[k..], |b| - k).Some?)
      invariant more && Parse(b, |b|).Some? ==> Parse(b, |b|).value.1 == k + Parse(b[k..], |b| - k).value.1
      invariant !more ==> Parse(b, |b|).Some? && Parse(b, |b|).value.1 == k
      decreases |b| - k, more
    {
      SkippedByte(b[k..], |b| - k);
      var group := stream.ReadByte();
      if group.None? {
        return false;
      }
      assert b[k..][1..] == b[k + 1..];
      k := k + 1;
      more := group.value >= 0x80;
    }
    return true;
  }

  lemma SkippedByte(b: seq<byte>, max: nat)
    requires max == |b|
    ensures b == [] ==> Parse(b, max).None?
    ensures b != [] && b[0] < 0x80 ==> Parse(b, max) == Some((b[0], 1))
    ensures b != [] && b[0] >= 0x80 ==> (Parse(b, max).Some? <==> Parse(b[1..], max - 1).Some?)
    ensures b != [] && b[0] >= 0x80 && Parse(b, max).Some? ==>
      Parse(b, max).value.1 == Parse(b[1..], max - 1).value.1 + 1
  {}

  /** pb_skip_field. */
  method SkipField(stream: IStream, wt: nat) returns (ok: bool)
    requires stream.Valid()
    modifies stream
    ensures stream.Valid() && stream.End() == old(stream.End())
    ensures var r := Skip(wt, old(stream.Rest()));
      if r.None? then !ok else ok && stream.Rest() == r.value
  {
    hide Parse;
    if wt == WT_VARINT {
      ok := SkipVarint(stream);
    } else if wt == WT_64BIT {
      var b := stream.ReadBytes(8);
      ok := b.Some?;
    } else if wt == WT_STRING {
      var length := stream.DecodeVarint32();
      if length.None? {
        return false;
      }
      var b := stream.ReadBytes(length.value);
      ok := b.Some?;
    } else if wt == WT_32BIT {
      var b := stream.ReadBytes(4);
      ok := b.Some?;
    } else {
      ok := false;
    }
  }

  // ----- required fields -----------------------------------------------------

  function Index(m: Message, i: nat): nat
    requires i <= |m.fields|
  {
    FieldIter.RequiredBefore(Descs(m), i)
  }

  lemma {:induction false} IndexGrows(m: Message, i: nat, j: nat)
    requires i < j <= |m.fields|
    ensures Index(m, i) <= Index(m, j) && (m.fields[i].htype.Required? ==> Index(m, i) < Index(m, j))
    decreases j
  {
    assert Descs(m)[j - 1] == DescOf(m.fields[j - 1]);
    if i < j - 1 {
      IndexGrows(m, i, j - 1);
    }
  }

  lemma {:induction false} IndexIsTaken(m: Message, n: nat, k: nat) returns (i: nat)
    requires n <= |m.fields| && k < Index(m, n)
    ensures i < n && m.fields[i].htype.Required? && Index(m, i) == k
    decreases n
  {
    assert Descs(m)[n - 1] == DescOf(m.fields[n - 1]);
    if k < Index(m, n - 1) {
      i := IndexIsTaken(m, n - 1, k);
    } else {
      i := n - 1;
    }
  }

  /** The words have exactly the bits of the required fields seen, as far as they reach:
      the 65th and later ones are not recorded. */
  ghost predicate Tracks(m: Message, words: seq<bv32>, seen: set<nat>)
    requires |words| == 2
  {
    && (forall i :: 0 <= i < |m.fields| && m.fields[i].htype.Required? && Index(m, i) < 64 ==>
          (i in seen <==> Seen(words, Index(m, i))))
    && (forall k :: Index(m, |m.fields|) <= k < 64 ==> !Seen(words, k))
  }

  lemma TracksNothing(m: Message)
    ensures Tracks(m, [0, 0], {})
  {
    hide Seen;
    forall k | 0 <= k < 64 ensures !Seen([0, 0], k) {
      NothingSeen(k);
    }
  }

  lemma TracksOneMore(m: Message, before: seq<bv32>, after: seq<bv32>, seen: set<nat>, i: nat)
    requires |before| == |after| == 2 && Tracks(m, before, seen)
    requires i < |m.fields| && m.fields[i].htype.Required? && Index(m, i) < 64
    requires forall k :: 0 <= k < 64 ==> (Seen(after, k) <==> k == Index(m, i) || Seen(before, k))
    ensures Tracks(m, after, seen + {i})
  {
    hide Seen, Index;
    IndexGrows(m, i, |m.fields|);
    forall j | 0 <= j < |m.fields| && m.fields[j].htype.Required? && Index(m, j) < 64
      ensures j in seen + {i} <==> Seen(after, Index(m, j))
    {
      if j != i {
        IndexGrows(m, if i < j then i else j, if i < j then j else i);
      }
    }
  }

  lemma AllSeenIsAllRequired(m: Message, words: seq<bv32>, seen: set<nat>)
    requires |words| == 2 && Index(m, |m.fields|) < 64 && Tracks(m, words, seen)
    ensures AllRequired(m, seen) <==> forall k :: 0 <= k < Index(m, |m.fields|) ==> Seen(words, k)
  {
    hide Seen, Index;
    var n := Index(m, |m.fields|);
    if AllRequired(m, seen) {
      forall k | 0 <= k < n ensures Seen(words, k) {
        var i := IndexIsTaken(m, |m.fields|, k);
      }
    }
    if forall k :: 0 <= k < n ==> Seen(words, k) {
      forall i | 0 <= i < |m.fields| && m.fields[i].htype.Required? ensures i in seen {
        IndexGrows(m, i, |m.fields|);
      }
    }
  }

  /** The walk to the end of the descriptors that counts the required fields. */
  method CountRequired(iter: FieldIter.Iterator) returns (count: nat)
    requires iter.Valid()
    modifies iter
    ensures count == FieldIter.RequiredBefore(iter.fields, |iter.fields|)
  {
    hide FieldIter.DataAt, FieldIter.SizeAt, FieldIter.WellFormed;
    count := iter.requiredIndex;
    var lastRequired := iter.pos < |iter.fields| && iter.fields[iter.pos].kind.Required?;
    var more := iter.Next();
    while more
      invariant iter.Valid() && (more ==> 0 < iter.pos < |iter.fields|)
      invariant iter.fields != [] ==>
        var last := if more then iter.pos - 1 else |iter.fields| - 1;
        && count == FieldIter.RequiredBefore(iter.fields, last)
        && lastRequired == iter.fields[last].kind.Required?
      invariant iter.fields == [] ==> count == 0 && !more && !lastRequired
      decreases more, |iter.fields| - iter.pos
    {
      count := iter.requiredIndex;
      lastRequired := iter.fields[iter.pos].kind.Required?;
      more := iter.Next();
    }
    if lastRequired {
      count := count + 1;
    }
  }

  // ----- messages ------------------------------------------------------------

  lemma DescsWellFormed(c: Config, m: Message)
    requires WellFormed(c, m)
    ensures FieldIter.WellFormed(Descs(m))
  {
    forall i | 0 <= i < |m.fields| ensures Descs(m)[i].tag != 0 {
      assert FieldWellFormed(c, m.fields[i]);
    }
  }

  /** With distinct tags, the search finds the same field from wherever it starts. */
  lemma FoundIsLookup(m: Message, tag: nat, found: bool, pos: nat)
    requires DistinctTags(m)
    requires found <==> exists i :: 0 <= i < |m.fields| && FieldIter.Matches(Descs(m), i, tag)
    requires found ==> pos < |m.fields| && FieldIter.Matches(Descs(m), pos, tag)
    ensures found <==> Lookup(m, tag) < |m.fields|
    ensures found ==> pos == Lookup(m, tag)
  {
    hide LookupFrom;
    var i := Lookup(m, tag);
    if i < |m.fields| {
      assert FieldIter.Matches(Descs(m), i, tag);
    }
  }

  /** The field after a tag: found by the iterator and decoded, or skipped. */
  method DecodeFieldFrom(c: Config, stream: IStream, m: Message, iter: FieldIter.Iterator, words: array<bv32>,
                         slots: seq<Slot>, ghost seen: set<nat>, tag: nat, wt: nat)
    returns (r: Option<seq<Slot>>, ghost seen': set<nat>)
    requires stream.Valid() && WellFormed(c, m) && Typed(c, m, slots) && Checkable(m)
    requires iter.Valid() && iter.fields == Descs(m) && words.Length == 2 && Tracks(m, words[..], seen)
    modifies stream, iter, words
    ensures stream.Valid() && stream.End() == old(stream.End()) && iter.Valid()
    ensures var spec := Step(c, m, State(slots, seen), tag, wt, old(stream.Rest()));
      if spec.None? then r.None?
      else r == Some(spec.value.0.slots) && seen' == spec.value.0.seen && stream.Rest() == spec.value.1
    ensures r.Some? ==> Typed(c, m, r.value) && Tracks(m, words[..], seen')
    decreases m, 0
  {
    hide FieldIter.DataAt, FieldIter.SizeAt, FieldIter.RequiredBefore, FieldIter.WellFormed, SlotTyped, DecodeSlot,
         Skip, Lookup, Seen, Tracks;
    seen' := seen;
    var found := FindField(c, m, iter, tag);
    if !found {
      var ok := SkipField(stream, wt);
      return if ok then Some(slots) else None, seen;
    }
    if iter.CurrentTag() == 0 {
      // Only the terminator of an empty message is found so; no decoder accepts it.
      return None, seen;
    }
    var i := iter.pos;
    var f := m.fields[i];
    FieldIsTyped(c, m, slots, i);
    if f.htype.Required? && iter.requiredIndex < 64 {
      ghost var before := words[..];
      MarkSeen(words, iter.requiredIndex);
      TracksOneMore(m, before, words[..], seen, i);
    }
    IndexInRange(m, i);
    if f.htype.Required? {
      seen' := seen + {i};
    }
    var s := DecodeSlotFrom(c, stream, f, slots[i], wt);
    return if s.None? then None else Some(Store(m, slots, i, s.value)), seen';
  }

  lemma FieldIsTyped(c: Config, m: Message, slots: seq<Slot>, i: nat)
    requires WellFormed(c, m) && Typed(c, m, slots) && Checkable(m) && i < |m.fields|
    ensures FieldWellFormed(c, m.fields[i]) && SlotTyped(c, m.fields[i], slots[i]) && CheckableField(m.fields[i])
  {}

  lemma IndexInRange(m: Message, i: nat)
    requires Checkable(m) && i < |m.fields|
    ensures Index(m, i) < 64
  {
    IndexGrows(m, i, |m.fields|);
  }

  method FindField(c: Config, m: Message, iter: FieldIter.Iterator, tag: nat) returns (found: bool)
    requires WellFormed(c, m) && iter.Valid() && iter.fields == Descs(m)
    modifies iter
    ensures iter.Valid()
    ensures m.fields == [] ==> (found <==> tag == 0)
    ensures m.fields != [] ==> (found <==> Lookup(m, tag) < |m.fields|) && (found ==> iter.pos == Lookup(m, tag))
  {
    hide FieldIter.DataAt, FieldIter.SizeAt, FieldIter.RequiredBefore, FieldIter.WellFormed, LookupFrom,
         FieldWellFormed;
    ghost var steps;
    found, steps := iter.Find(tag);
    if m.fields != [] {
      NoZeroTag(c, m);
      FoundIsLookup(m, tag, found, iter.pos);
    }
  }

  lemma NoZeroTag(c: Config, m: Message)
    requires WellFormed(c, m)
    ensures forall i :: 0 <= i < |m.fields| ==> !FieldIter.Matches(Descs(m), i, 0)
  {
    DescsWellFormed(c, m);
  }

  /** pb_decode_noinit. */
  method DecodeFrom(c: Config, stream: IStream, m: Message, slots: seq<Slot>) returns (r: Option<seq<Slot>>)
    requires stream.Valid() && WellFormed(c, m) && Typed(c, m, slots) && Checkable(m)
    modifies stream
    ensures stream.Valid() && stream.End() == old(stream.End())
    ensures r == DecodeInto(c, m, slots, old(stream.Rest()))
    ensures r.Some? ==> Loop(c, m, State(slots, {}), old(stream.Rest())).Some?
    ensures r.Some? ==> stream.Rest() == Loop(c, m, State(slots, {}), old(stream.Rest())).value.rest
    decreases m, 1
  {
    hide FieldIter.DataAt, FieldIter.SizeAt, FieldIter.RequiredBefore, FieldIter.WellFormed, Typed, Step, DecodeTag,
         Tracks, Seen, AllRequired;
    ghost var b := stream.Rest();
    DescsWellFormed(c, m);
    TracksNothing(m);
    var words := new bv32[2](_ => 0);
    assert words[..] == [0, 0];
    var iter := new FieldIter.Iterator(BuildOf(c), Descs(m), 0);
    var current := slots;
    ghost var seen := {};
    while stream.bytesLeft > 0
      invariant stream.Valid() && stream.End() == old(stream.End())
      invariant iter.Valid() && iter.fields == Descs(m) && fresh(iter) && fresh(words)
      invariant Typed(c, m, current) && Tracks(m, words[..], seen)
      invariant Loop(c, m, State(slots, {}), b) == Loop(c, m, State(current, seen), stream.Rest())
      decreases |stream.Rest()|
    {
      var ok, tag, wt, eof := DecodeTagFrom(stream);
      if !ok {
        if eof {
          break;
        }
        return None;
      }
      var next;
      next, seen := DecodeFieldFrom(c, stream, m, iter, words, current, seen, tag, wt);
      if next.None? {
        return None;
      }
      current := next.value;
    }
    var count := CountRequired(iter);
    TracksClear(m, words[..], seen);
    StaysInBoundsExactly(count);
    var verdict := AllSeen(words, count);
    AllSeenIsAllRequired(m, words[..], seen);
    return if verdict.Complete? then Some(current) else None;
  }

  lemma TracksClear(m: Message, words: seq<bv32>, seen: set<nat>)
    requires |words| == 2 && Index(m, |m.fields|) < 64 && Tracks(m, words, seen)
    ensures forall k :: Index(m, |m.fields|) <= k < 64 ==> !Seen(words, k)
  {}

  /** pb_decode. */
  method Decode(c: Config, stream: IStream, m: Message) returns (r: Option<seq<Slot>>)
    requires stream.Valid() && WellFormed(c, m) && Checkable(m)
    modifies stream
    ensures stream.Valid() && stream.End() == old(stream.End())
    ensures r == DecodeMessage(c, m, old(stream.Rest()))
    ensures r.Some? ==> Typed(c, m, Defaults(m)) && Loop(c, m, State(Defaults(m), {}), old(stream.Rest())).Some?
    ensures r.Some? ==> stream.Rest() == Loop(c, m, State(Defaults(m), {}), old(stream.Rest())).value.rest
  {
    DefaultsTyped(c, m);
    var slots := SetToDefaults(c, m);
    r := DecodeFrom(c, stream, m, slots);
  }
}
