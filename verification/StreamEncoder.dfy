/**
 The encoder on output streams. Every routine writes exactly what the specification in
 Encoding says, or fails exactly when there is nothing to write or no room for it; a
 sizing stream goes through the same code and counts the same bytes.
 */
module StreamEncoder {
  import opened Common
  import opened Varint
  import opened Schema
  import opened Encoding
  import opened OutStream
  import opened Layout
  import FieldIter

  /** What C's types already guarantee: tags are not the terminator's and take 32 bits,
      and no length reaches 2^64. */
  predicate ValueFits(c: Config, f: Field, v: Value)
    requires ValueTyped(c, f, v)
    decreases f, 0
  {
    && 0 < f.tag < WORD32
    && (v.Raw? ==> |v.b| < WORD64)
    && (f.ltype.SubmessageT? ==>
      && MessageFits(c, f.ltype.sub, v.slots)
      && (EncodeMessage(c, f.ltype.sub, v.slots).Some? ==> |EncodeMessage(c, f.ltype.sub, v.slots).value| < WORD64))
  }

  predicate ItemsFit(c: Config, f: Field, items: seq<Value>)
    requires forall k :: 0 <= k < |items| ==> ValueTyped(c, f, items[k])
    decreases f, 1
  {
    && (forall k :: 0 <= k < |items| ==> ValueFits(c, f, items[k]))
    && (EncodeItems(c, f, items, false).Some? ==> |EncodeItems(c, f, items, false).value| < WORD64)
  }

  predicate SlotFits(c: Config, f: Field, s: Slot)
    requires SlotTyped(c, f, s)
    decreases f, 2
  {
    && 0 < f.tag < WORD32
    && match s
      case Single(v) => ValueFits(c, f, v)
      case Maybe(_, v) => ValueFits(c, f, v)
      case Many(items) => ItemsFit(c, f, items)
      case Choice(member) => member.Some? ==> ValueFits(c, f, member.value)
  }

  predicate MessageFits(c: Config, m: Message, slots: seq<Slot>)
    requires Typed(c, m, slots)
    decreases m
  {
    forall i :: 0 <= i < |slots| ==> SlotFits(c, m.fields[i], slots[i])
  }

  // ----- scalars -------------------------------------------------------------

  method EncodeTag(stream: OStream, wt: nat, tag: nat) returns (ok: bool)
    requires stream.Valid() && wt < 8 && tag < WORD32
    modifies stream, stream.buf
    ensures stream.Valid() && Wrote(old(stream.Snap()), stream.Snap(), Some(Tag(wt, tag)), ok)
  {
    ok := stream.EncodeVarint(8 * tag + wt);
  }

  /** pb_encode_svarint, by shift and complement on the unsigned word. */
  method EncodeSvarint(stream: OStream, value: int) returns (ok: bool)
    requires stream.Valid() && Signed64(value)
    modifies stream, stream.buf
    ensures stream.Valid() && Wrote(old(stream.Snap()), stream.Snap(), Some(Encode(ZigZag(value))), ok)
  {
    hide Wrote, Encode;
    ZigZagByShifting(value, 0);
    var zigzagged;
    if value < 0 {
      zigzagged := Complement(ShiftLeft(ToWord(value)));
    } else {
      zigzagged := ShiftLeft(ToWord(value));
    }
    ok := stream.EncodeVarint(zigzagged);
  }

  /** pb_encode_fixed32 and pb_encode_fixed64. */
  method EncodeFixed(stream: OStream, v: nat, n: nat) returns (ok: bool)
    requires stream.Valid() && (n == 4 || n == 8)
    modifies stream, stream.buf
    ensures stream.Valid() && Wrote(old(stream.Snap()), stream.Snap(), Some(Little(v, n)), ok)
  {
    hide Wrote, Little;
    var bytes: seq<byte>, value: nat, i := [], v, 0;
    assert [] + Little(v, n) == Little(v, n);
    while i < n
      invariant i <= n && Little(v, n) == bytes + Little(value, n - i)
      modifies {}
    {
      LittleNext(bytes, value, n - i);
      bytes, value, i := bytes + [value % 0x100], value / 0x100, i + 1;
    }
    assert Little(value, 0) == [] && bytes + [] == bytes;
    ok := stream.Write(bytes);
  }

  lemma LittleNext(b: seq<byte>, v: nat, n: nat)
    requires n > 0
    ensures b + Little(v, n) == b + [v % 0x100] + Little(v / 0x100, n - 1)
  {
    var rest := Little(v / 0x100, n - 1);
    assert b + ([v % 0x100] + rest) == b + [v % 0x100] + rest;
  }

  /** pb_encode_string. */
  method EncodeString(stream: OStream, b: seq<byte>) returns (ok: bool)
    requires stream.Valid() && |b| < WORD64
    modifies stream, stream.buf
    ensures stream.Valid() && Wrote(old(stream.Snap()), stream.Snap(), Some(Delimited(b)), ok)
  {
    hide Wrote, Encode;
    ghost var s := stream.Snap();
    ok := stream.EncodeVarint(|b|);
    if !ok {
      WroteFailed(s, stream.Snap(), Some(Encode(|b|)), Some(b));
      return;
    }
    ghost var t := stream.Snap();
    ok := stream.Write(b);
    WroteTwice(s, t, stream.Snap(), Some(Encode(|b|)), Some(b), ok);
  }

  /** The loop of pb_enc_string; memory after the bytes holds a zero if there is room. */
  method StringLength(b: seq<byte>, max: nat) returns (size: nat)
    requires |b| <= max
    ensures size == |CString(b)|
  {
    size := 0;
    assert b[0..] == b;
    while size < max && size < |b| && b[size] != 0
      invariant size <= |b| && |CString(b)| == size + |CString(b[size..])|
    {
      assert b[size..][1..] == b[size + 1..];
      size := size + 1;
    }
  }

  // ----- values --------------------------------------------------------------

  method EncodeValueTo(c: Config, stream: OStream, f: Field, v: Value) returns (ok: bool)
    requires stream.Valid() && ValueTyped(c, f, v) && ValueFits(c, f, v)
    modifies stream, stream.buf
    ensures stream.Valid() && Wrote(old(stream.Snap()), stream.Snap(), EncodeValue(c, f, v), ok)
    decreases f, 0, 0
  {
    hide Typed, MessageFits, EncodeMessage, Encode, Delimited, Little, CString, Overwrite;
    match f.ltype
    case VarintT =>
      if !IntegerSize(f.dataSize) {
        return false;
      }
      ok := stream.EncodeVarint(ToWord(v.i));
    case UvarintT =>
      if !IntegerSize(f.dataSize) {
        return false;
      }
      ok := stream.EncodeVarint(v.i);
    case SvarintT =>
      if !IntegerSize(f.dataSize) {
        return false;
      }
      ok := EncodeSvarint(stream, v.i);
    case Fixed32T => ok := EncodeFixed(stream, v.i, 4);
    case Fixed64T => ok := EncodeFixed(stream, v.i, 8);
    case BytesT =>
      if |v.b| + c.sizeBytes > f.dataSize {
        return false;
      }
      ok := EncodeString(stream, v.b);
    case StringT =>
      var size := StringLength(v.b, f.dataSize);
      assert v.b[..size] == CString(v.b);
      ok := EncodeString(stream, v.b[..size]);
    case FixedBytesT => ok := EncodeString(stream, v.b);
    case SubmessageT(sub) => ok := EncodeSubmessage(c, stream, sub, v.slots);
  }

  /** What a substream over the rest of the buffer writes, the stream it was made from
      has written once it takes over the position. */
  lemma SubstreamWrote(t: Snapshot, u: Snapshot, body: seq<byte>)
    requires t.Valid() && !t.sizing && Fits(t, |body|)
    requires Wrote(Snapshot(false, t.content, t.state, |body|, 0), u, Some(body), true)
    ensures Wrote(t, Snapshot(false, u.content, u.state, t.maxSize, t.written + u.written), Some(body), true)
  {}

  /** pb_encode_submessage: a sizing pass, then the length, then a writing pass that
      always comes to the same size. */
  method EncodeSubmessage(c: Config, stream: OStream, m: Message, slots: seq<Slot>) returns (ok: bool)
    requires stream.Valid() && Typed(c, m, slots) && MessageFits(c, m, slots)
    requires EncodeMessage(c, m, slots).Some? ==> |EncodeMessage(c, m, slots).value| < WORD64
    modifies stream, stream.buf
    ensures stream.Valid()
    ensures var e := EncodeMessage(c, m, slots);
      Wrote(old(stream.Snap()), stream.Snap(), if e.None? then None else Some(Delimited(e.value)), ok)
    decreases m, 2
  {
    hide Typed, MessageFits, EncodeMessage, Encode, Overwrite;
    ghost var s := stream.Snap();
    ghost var e := EncodeMessage(c, m, slots);
    var substream := new OStream(true, stream.buf, 0, 0);
    var status := EncodeTo(c, substream, m, slots);
    assert stream.Snap() == s;
    if !status {
      return false;
    }
    var size := substream.bytesWritten;
    ok := stream.EncodeVarint(size);
    if !ok {
      WroteFailed(s, stream.Snap(), Some(Encode(size)), e);
      return;
    }
    ghost var t := stream.Snap();
    if stream.sizing {
      ok := stream.Count(size, e.value);
      WroteTwice(s, t, stream.Snap(), Some(Encode(size)), e, ok);
      return;
    }
    if stream.bytesWritten + size > stream.maxSize {
      return false;
    }
    substream := new OStream(false, stream.buf, stream.state, size);
    status := EncodeTo(c, substream, m, slots);
    stream.bytesWritten := stream.bytesWritten + substream.bytesWritten;
    stream.state := substream.state;
    if substream.bytesWritten != size {
      assert false;
      return false;
    }
    SubstreamWrote(t, substream.Snap(), e.value);
    WroteTwice(s, t, stream.Snap(), Some(Encode(size)), e, true);
    return status;
  }

  method EncodeTaggedTo(c: Config, stream: OStream, f: Field, v: Value) returns (ok: bool)
    requires stream.Valid() && ValueTyped(c, f, v) && ValueFits(c, f, v)
    modifies stream, stream.buf
    ensures stream.Valid() && Wrote(old(stream.Snap()), stream.Snap(), EncodeTagged(c, f, v), ok)
    decreases f, 1, 0
  {
    hide Wrote, ValueTyped, Tag, EncodeValue, MessageFits;
    ghost var s := stream.Snap();
    ghost var tag := Some(Tag(WireType(f.ltype), f.tag));
    assert EncodeTagged(c, f, v) == Concat(tag, EncodeValue(c, f, v));
    ok := EncodeTag(stream, WireType(f.ltype), f.tag);
    if !ok {
      WroteFailed(s, stream.Snap(), tag, EncodeValue(c, f, v));
      return;
    }
    ghost var t := stream.Snap();
    ok := EncodeValueTo(c, stream, f, v);
    WroteTwice(s, t, stream.Snap(), tag, EncodeValue(c, f, v), ok);
  }

  // ----- arrays --------------------------------------------------------------

  lemma ItemsNext(c: Config, f: Field, items: seq<Value>, i: nat, tagged: bool, done: Option<seq<byte>>)
    requires i < |items| && forall k :: 0 <= k < |items| ==> ValueTyped(c, f, items[k])
    ensures var e := if tagged then EncodeTagged(c, f, items[i]) else EncodeValue(c, f, items[i]);
      Concat(done, EncodeItems(c, f, items[i..], tagged))
        == Concat(Concat(done, e), EncodeItems(c, f, items[i + 1..], tagged))
  {
    hide ValueTyped, EncodeValue, EncodeTagged;
    assert items[i..][1..] == items[i + 1..];
    var e := if tagged then EncodeTagged(c, f, items[i]) else EncodeValue(c, f, items[i]);
    ConcatAssociates(done, e, EncodeItems(c, f, items[i + 1..], tagged));
  }

  lemma ConcatAssociates(a: Option<seq<byte>>, b: Option<seq<byte>>, d: Option<seq<byte>>)
    ensures Concat(a, Concat(b, d)) == Concat(Concat(a, b), d)
  {
    if a.Some? && b.Some? && d.Some? {
      assert a.value + (b.value + d.value) == a.value + b.value + d.value;
    }
  }

  lemma NothingBefore(e: Option<seq<byte>>)
    ensures Concat(Some([]), e) == e
  {
    if e.Some? {
      assert [] + e.value == e.value;
    }
  }

  method EncodeItemsTo(c: Config, stream: OStream, f: Field, items: seq<Value>, tagged: bool) returns (ok: bool)
    requires stream.Valid() && forall k :: 0 <= k < |items| ==> ValueTyped(c, f, items[k]) && ValueFits(c, f, items[k])
    modifies stream, stream.buf
    ensures stream.Valid() && Wrote(old(stream.Snap()), stream.Snap(), EncodeItems(c, f, items, tagged), ok)
    decreases f, 2, 0
  {
    hide Wrote, ValueTyped, ValueFits, EncodeValue, EncodeTagged;
    ghost var s := stream.Snap();
    ghost var all := EncodeItems(c, f, items, tagged);
    ghost var done := Some([]);
    NothingWrote(s);
    NothingBefore(all);
    assert items[0..] == items;
    var i := 0;
    while i < |items|
      invariant i <= |items| && stream.Valid() && s.Valid() && Wrote(s, stream.Snap(), done, true)
      invariant Concat(done, EncodeItems(c, f, items[i..], tagged)) == all
    {
      hide EncodeItems;
      ItemsNext(c, f, items, i, tagged, done);
      ghost var t := stream.Snap();
      ghost var e := if tagged then EncodeTagged(c, f, items[i]) else EncodeValue(c, f, items[i]);
      if tagged {
        ok := EncodeTaggedTo(c, stream, f, items[i]);
      } else {
        ok := EncodeValueTo(c, stream, f, items[i]);
      }
      WroteTwice(s, t, stream.Snap(), done, e, ok);
      done := Concat(done, e);
      i := i + 1;
      if !ok {
        WroteFailed(s, stream.Snap(), done, EncodeItems(c, f, items[i..], tagged));
        return;
      }
      SuccessHas(s, stream.Snap(), done);
    }
    assert Concat(done, Some([])) == done by { SuccessHas(s, stream.Snap(), done); }
    return true;
  }

  lemma SuccessHas(s: Snapshot, t: Snapshot, e: Option<seq<byte>>)
    requires s.Valid() && Wrote(s, t, e, true)
    ensures e.Some? && Concat(e, Some([])) == e
  {
    assert e.value + [] == e.value;
  }

  /** Items of a fixed width take that much each. */
  lemma {:induction false} FixedWidth(c: Config, f: Field, items: seq<Value>)
    requires forall k :: 0 <= k < |items| ==> ValueTyped(c, f, items[k])
    requires f.ltype.Fixed32T? || f.ltype.Fixed64T?
    ensures var e := EncodeItems(c, f, items, false);
      e.Some? && |e.value| == (if f.ltype.Fixed32T? then 4 else 8) * |items|
  {
    if items != [] {
      FixedWidth(c, f, items[1..]);
    }
  }

  /** encode_array. */
  method EncodeArrayTo(c: Config, stream: OStream, f: Field, items: seq<Value>) returns (ok: bool)
    requires stream.Valid() && 0 < f.tag < WORD32
    requires (forall k :: 0 <= k < |items| ==> ValueTyped(c, f, items[k])) && ItemsFit(c, f, items)
    modifies stream, stream.buf
    ensures stream.Valid() && Wrote(old(stream.Snap()), stream.Snap(), EncodeArray(c, f, items), ok)
    decreases f, 3, 0
  {
    hide Overwrite, ValueTyped, ValueFits, EncodeItems, Tag, Encode;
    ghost var s := stream.Snap();
    if |items| == 0 {
      NothingWrote(s);
      return true;
    }
    if |items| > f.arraySize {
      return false;
    }
    if !Packable(f.ltype) {
      ok := EncodeItemsTo(c, stream, f, items, true);
      return;
    }
    ok := EncodePackedTo(c, stream, f, items);
  }

  method EncodePackedTo(c: Config, stream: OStream, f: Field, items: seq<Value>) returns (ok: bool)
    requires stream.Valid() && 0 < f.tag < WORD32 && Packable(f.ltype)
    requires (forall k :: 0 <= k < |items| ==> ValueTyped(c, f, items[k])) && ItemsFit(c, f, items)
    modifies stream, stream.buf
    ensures stream.Valid()
    ensures var e := EncodeItems(c, f, items, false);
      Wrote(old(stream.Snap()), stream.Snap(),
            if e.None? then None else Some(Tag(WT_STRING, f.tag) + Delimited(e.value)), ok)
    decreases f, 2, 3
  {
    hide Wrote, ValueTyped, ValueFits, EncodeItems, Tag, Encode;
    ghost var s := stream.Snap();
    ghost var e := EncodeItems(c, f, items, false);
    ghost var tag := Some(Tag(WT_STRING, f.tag));
    ghost var body := if e.None? then None else Some(Delimited(e.value));
    assert Concat(tag, body) == if e.None? then None else Some(Tag(WT_STRING, f.tag) + Delimited(e.value));
    ok := EncodeTag(stream, WT_STRING, f.tag);
    if !ok {
      WroteFailed(s, stream.Snap(), tag, body);
      return;
    }
    ghost var t := stream.Snap();
    ok := EncodePackedBody(c, stream, f, items);
    WroteTwice(s, t, stream.Snap(), tag, body, ok);
  }

  /** The length of a packed array, which fixed widths give away. */
  method PackedSize(c: Config, f: Field, items: seq<Value>) returns (size: Option<nat>)
    requires (forall k :: 0 <= k < |items| ==> ValueTyped(c, f, items[k])) && ItemsFit(c, f, items)
    ensures var e := EncodeItems(c, f, items, false);
      size == if e.None? then None else Some(|e.value|)
    decreases f, 2, 1
  {
    hide Overwrite, ValueTyped, ValueFits, EncodeItems;
    if f.ltype.Fixed32T? {
      FixedWidth(c, f, items);
      return Some(4 * |items|);
    } else if f.ltype.Fixed64T? {
      FixedWidth(c, f, items);
      return Some(8 * |items|);
    }
    var buf := new byte[0];
    var sizestream := new OStream(true, buf, 0, 0);
    var ok := EncodeItemsTo(c, sizestream, f, items, false);
    return if ok then Some(sizestream.bytesWritten) else None;
  }

  method EncodePackedBody(c: Config, stream: OStream, f: Field, items: seq<Value>) returns (ok: bool)
    requires stream.Valid() && Packable(f.ltype)
    requires (forall k :: 0 <= k < |items| ==> ValueTyped(c, f, items[k])) && ItemsFit(c, f, items)
    modifies stream, stream.buf
    ensures stream.Valid()
    ensures var e := EncodeItems(c, f, items, false);
      Wrote(old(stream.Snap()), stream.Snap(), if e.None? then None else Some(Delimited(e.value)), ok)
    decreases f, 2, 2
  {
    hide Overwrite, Wrote, ValueTyped, ValueFits, EncodeItems, Encode;
    ghost var s := stream.Snap();
    ghost var e := EncodeItems(c, f, items, false);
    var size := PackedSize(c, f, items);
    if size.None? {
      NothingToWrite(s);
      return false;
    }
    ok := stream.EncodeVarint(size.value);
    if !ok {
      WroteFailed(s, stream.Snap(), Some(Encode(size.value)), e);
      return;
    }
    ghost var t := stream.Snap();
    if stream.sizing {
      ok := stream.Count(size.value, e.value);
    } else {
      ok := EncodeItemsTo(c, stream, f, items, false);
    }
    WroteTwice(s, t, stream.Snap(), Some(Encode(size.value)), e, ok);
  }

  lemma NothingToWrite(s: Snapshot)
    requires s.Valid()
    ensures Wrote(s, s, None, false)
  {}

  // ----- fields and messages -------------------------------------------------

  /** encode_basic_field. */
  method EncodeFieldTo(c: Config, stream: OStream, f: Field, slot: Slot) returns (ok: bool)
    requires stream.Valid() && SlotTyped(c, f, slot) && SlotFits(c, f, slot)
    modifies stream, stream.buf
    ensures stream.Valid() && Wrote(old(stream.Snap()), stream.Snap(), EncodeField(c, f, slot), ok)
    decreases f, 4, 0
  {
    hide Wrote, ValueFits, ItemsFit, EncodeArray, EncodeTagged, IsZero;
    NothingWrote(stream.Snap());
    match f.htype
    case Required => ok := EncodeTaggedTo(c, stream, f, slot.v);
    case Optional(hasFlag) =>
      assert ValueTyped(c, f, slot.v);
      var has := if hasFlag then slot.has else !IsZero(f, slot.v);
      ok := true;
      if has {
        ok := EncodeTaggedTo(c, stream, f, slot.v);
      }
    case Repeated => ok := EncodeArrayTo(c, stream, f, slot.items);
    case Oneof(_) =>
      ok := true;
      if slot.member.Some? {
        ok := EncodeTaggedTo(c, stream, f, slot.member.value);
      }
  }

  lemma DescsWellFormed(c: Config, m: Message, slots: seq<Slot>)
    requires Typed(c, m, slots) && MessageFits(c, m, slots)
    ensures FieldIter.WellFormed(Descs(m))
  {
    forall i | 0 <= i < |m.fields| ensures Descs(m)[i].tag != 0 {
      assert SlotTyped(c, m.fields[i], slots[i]) && SlotFits(c, m.fields[i], slots[i]);
    }
  }

  lemma FieldsNext(c: Config, m: Message, slots: seq<Slot>, i: nat, done: Option<seq<byte>>)
    requires Typed(c, m, slots) && i < |slots|
    ensures SlotTyped(c, m.fields[i], slots[i])
    ensures Concat(done, EncodeFrom(c, m, slots, i))
         == Concat(Concat(done, EncodeField(c, m.fields[i], slots[i])), EncodeFrom(c, m, slots, i + 1))
  {
    hide SlotTyped, EncodeField;
    ConcatAssociates(done, EncodeField(c, m.fields[i], slots[i]), EncodeFrom(c, m, slots, i + 1));
  }

  /** pb_encode. */
  method EncodeTo(c: Config, stream: OStream, m: Message, slots: seq<Slot>) returns (ok: bool)
    requires stream.Valid() && Typed(c, m, slots) && MessageFits(c, m, slots)
    modifies stream, stream.buf
    ensures stream.Valid() && Wrote(old(stream.Snap()), stream.Snap(), EncodeMessage(c, m, slots), ok)
    decreases m, 1
  {
    hide Wrote, SlotTyped, SlotFits, EncodeField, FieldIter.WellFormed, FieldIter.DataAt, FieldIter.SizeAt,
         FieldIter.RequiredBefore;
    ghost var s := stream.Snap();
    ghost var done := Some([]);
    NothingWrote(s);
    NothingBefore(EncodeMessage(c, m, slots));
    DescsWellFormed(c, m, slots);
    var iter := new FieldIter.Iterator(BuildOf(c), Descs(m), 0);
    if iter.CurrentTag() == 0 {
      return true;
    }
    var more := true;
    while more
      invariant iter.Valid() && iter.fields == Descs(m) && fresh(iter)
      invariant stream.Valid() && s.Valid() && Wrote(s, stream.Snap(), done, true)
      invariant Concat(done, EncodeFrom(c, m, slots, if more then iter.pos else |slots|)) == EncodeMessage(c, m, slots)
      decreases more, |slots| - iter.pos
    {
      hide EncodeFrom;
      ghost var i := iter.pos;
      FieldsNext(c, m, slots, i, done);
      ghost var t := stream.Snap();
      ghost var e := EncodeField(c, m.fields[i], slots[i]);
      ok := EncodeFieldTo(c, stream, m.fields[iter.pos], slots[iter.pos]);
      WroteTwice(s, t, stream.Snap(), done, e, ok);
      done := Concat(done, e);
      if !ok {
        WroteFailed(s, stream.Snap(), done, EncodeFrom(c, m, slots, i + 1));
        return;
      }
      more := iter.Next();
    }
    SuccessHas(s, stream.Snap(), done);
    return true;
  }

  /** pb_get_encoded_size: the sizing pass counts exactly the bytes of the encoding. */
  method GetEncodedSize(c: Config, m: Message, slots: seq<Slot>) returns (size: Option<nat>)
    requires Typed(c, m, slots) && MessageFits(c, m, slots)
    ensures var e := EncodeMessage(c, m, slots);
      size == if e.None? then None else Some(|e.value|)
  {
    var buf := new byte[0];
    var stream := new OStream(true, buf, 0, 0);
    var ok := EncodeTo(c, stream, m, slots);
    return if ok then Some(stream.bytesWritten) else None;
  }

  /** Encoding into a buffer works if and only if the size the sizing pass reports fits,
      and then the buffer starts with the encoding and keeps the rest. */
  method EncodeToBuffer(c: Config, m: Message, slots: seq<Slot>, buf: array<byte>) returns (written: Option<nat>)
    requires Typed(c, m, slots) && MessageFits(c, m, slots)
    modifies buf
    ensures var e := EncodeMessage(c, m, slots);
      && (written.Some? <==> e.Some? && |e.value| <= buf.Length)
      && (written.Some? ==> written.value == |e.value| && buf[..] == e.value + old(buf[|e.value|..]))
  {
    var stream := new OStream(false, buf, 0, buf.Length);
    var ok := EncodeTo(c, stream, m, slots);
    return if ok then Some(stream.bytesWritten) else None;
  }
}
