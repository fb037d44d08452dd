/**
 Concatenated messages merge, and unknown fields change nothing.
 */
module Merging {
  import opened Common
  import opened Varint
  import opened Schema
  import opened Encoding
  import opened Decoding

  // ----- decoding looks no further than what it consumes ---------------------

  lemma {:induction false} ParseLocal(b: seq<byte>, more: seq<byte>, max: nat)
    requires Parse(b, max).Some?
    ensures Parse(b + more, max) == Parse(b, max)
    decreases max
  {
    if b[0] >= 0x80 {
      ParseLocal(b[1..], more, max - 1);
      assert (b + more)[1..] == b[1..] + more;
    }
  }

  lemma SubstreamLocal(b: seq<byte>, more: seq<byte>)
    requires Substream(b).Some?
    ensures Substream(b + more) == Some((Substream(b).value.0, Substream(b).value.1 + more))
  {
    hide Parse;
    ParseLocal(b, more, 5);
    var (len, n) := Decode32(b).value;
    assert (b + more)[n..] == b[n..] + more;
    assert (b[n..] + more)[..len] == b[n..][..len];
    assert (b[n..] + more)[len..] == b[n..][len..] + more;
  }

  lemma FixedLocal(b: seq<byte>, more: seq<byte>, n: nat)
    requires (n == 4 || n == 8) && Fixed(b, n).Some?
    ensures Fixed(b + more, n) == Some((Fixed(b, n).value.0, Fixed(b, n).value.1 + more))
  {
    assert (b + more)[..n] == b[..n];
    assert (b + more)[n..] == b[n..] + more;
  }

  lemma SkipLocal(wt: nat, b: seq<byte>, more: seq<byte>)
    requires Skip(wt, b).Some?
    ensures Skip(wt, b + more) == Some(Skip(wt, b).value + more)
  {
    hide Parse, Substream;
    if wt == WT_VARINT {
      ParseLocal(b, more, |b|);
      ParseLonger(b + more, |b|, |b + more|);
      var n := Parse(b, |b|).value.1;
      assert (b + more)[n..] == b[n..] + more;
    } else if wt == WT_STRING {
      SubstreamLocal(b, more);
    } else {
      var n := if wt == WT_64BIT then 8 else 4;
      assert (b + more)[n..] == b[n..] + more;
    }
  }

  lemma TagLocal(b: seq<byte>, more: seq<byte>)
    requires DecodeTag(b).Tagged?
    ensures DecodeTag(b + more) == DecodeTag(b).(rest := DecodeTag(b).rest + more)
  {
    hide Parse;
    ParseLocal(b, more, 5);
    var n := Decode32(b).value.1;
    assert (b + more)[n..] == b[n..] + more;
  }

  lemma ValueLocal(c: Config, f: Field, base: seq<Slot>, b: seq<byte>, more: seq<byte>)
    requires FieldWellFormed(c, f) && (f.ltype.SubmessageT? ==> Typed(c, f.ltype.sub, base))
    requires DecodeValue(c, f, base, b).Some?
    ensures DecodeValue(c, f, base, b + more)
         == Some((DecodeValue(c, f, base, b).value.0, DecodeValue(c, f, base, b).value.1 + more))
  {
    hide Parse, Substream, Fixed, FieldWellFormed, Typed, DecodeInto, FromVarint;
    if f.ltype.Fixed32T? || f.ltype.Fixed64T? {
      FixedLocal(b, more, if f.ltype.Fixed32T? then 4 else 8);
    } else if Packable(f.ltype) {
      ParseLocal(b, more, 10);
      var n := Decode64(b).value.1;
      assert (b + more)[n..] == b[n..] + more;
    } else {
      SubstreamLocal(b, more);
    }
  }

  lemma OverLocal(c: Config, f: Field, v: Value, b: seq<byte>, more: seq<byte>)
    requires FieldWellFormed(c, f) && ValueTyped(c, f, v)
    requires DecodeOver(c, f, v, b).Some?
    ensures DecodeOver(c, f, v, b + more)
         == Some((DecodeOver(c, f, v, b).value.0, DecodeOver(c, f, v, b).value.1 + more))
  {
    ValueLocal(c, f, if f.ltype.SubmessageT? then v.slots else [], b, more);
  }

  lemma FreshLocal(c: Config, f: Field, b: seq<byte>, more: seq<byte>)
    requires FieldWellFormed(c, f)
    requires DecodeFresh(c, f, b).Some?
    ensures DecodeFresh(c, f, b + more) == Some((DecodeFresh(c, f, b).value.0, DecodeFresh(c, f, b).value.1 + more))
  {
    FreshTyped(c, f);
    ValueLocal(c, f, Fresh(f), b, more);
  }

  lemma ArrayLocal(c: Config, f: Field, items: seq<Value>, wt: nat, b: seq<byte>, more: seq<byte>)
    requires FieldWellFormed(c, f) && (forall k :: 0 <= k < |items| ==> ValueTyped(c, f, items[k]))
    requires DecodeArray(c, f, items, wt, b).Some?
    ensures DecodeArray(c, f, items, wt, b + more)
         == Some((DecodeArray(c, f, items, wt, b).value.0, DecodeArray(c, f, items, wt, b).value.1 + more))
  {
    hide Substream, FieldWellFormed, ValueTyped, DecodeFresh, DecodePacked;
    if wt == WT_STRING && Packable(f.ltype) {
      SubstreamLocal(b, more);
    } else {
      FreshLocal(c, f, b, more);
    }
  }

  lemma SlotLocal(c: Config, f: Field, s: Slot, wt: nat, b: seq<byte>, more: seq<byte>)
    requires FieldWellFormed(c, f) && SlotTyped(c, f, s)
    requires DecodeSlot(c, f, s, wt, b).Some?
    ensures DecodeSlot(c, f, s, wt, b + more)
         == Some((DecodeSlot(c, f, s, wt, b).value.0, DecodeSlot(c, f, s, wt, b).value.1 + more))
  {
    hide FieldWellFormed, ValueTyped, DecodeArray, DecodeFresh, DecodeOver;
    match f.htype
    case Repeated => ArrayLocal(c, f, s.items, wt, b, more);
    case Oneof(_) => FreshLocal(c, f, b, more);
    case Required => OverLocal(c, f, s.v, b, more);
    case Optional(_) => OverLocal(c, f, s.v, b, more);
  }

  lemma StepLocal(c: Config, m: Message, st: State, tag: nat, wt: nat, b: seq<byte>, more: seq<byte>)
    requires WellFormed(c, m) && Typed(c, m, st.slots)
    requires Step(c, m, st, tag, wt, b).Some?
    ensures Step(c, m, st, tag, wt, b + more)
         == Some((Step(c, m, st, tag, wt, b).value.0, Step(c, m, st, tag, wt, b).value.1 + more))
  {
    hide Skip, DecodeSlot, LookupFrom, FieldWellFormed, SlotTyped;
    var i := Lookup(m, tag);
    if i == |m.fields| {
      SkipLocal(wt, b, more);
    } else {
      assert FieldWellFormed(c, m.fields[i]) && SlotTyped(c, m.fields[i], st.slots[i]);
      SlotLocal(c, m.fields[i], st.slots[i], wt, b, more);
    }
  }

  /** A loop that exhausted its input goes on with whatever is appended to it. */
  lemma {:induction false} LoopAppend(c: Config, m: Message, st: State, b: seq<byte>, more: seq<byte>)
    requires WellFormed(c, m) && Typed(c, m, st.slots)
    requires Loop(c, m, st, b).Some? && Loop(c, m, st, b).value.exhausted
    ensures Loop(c, m, st, b + more) == Loop(c, m, Loop(c, m, st, b).value.st, more)
    decreases |b|
  {
    hide Step, DecodeTag, Typed, WellFormed;
    if b == [] {
      assert b + more == more;
    } else {
      var h := DecodeTag(b);
      TagLocal(b, more);
      StepLocal(c, m, st, h.tag, h.wt, h.rest, more);
      var p := Step(c, m, st, h.tag, h.wt, h.rest).value;
      LoopAppend(c, m, p.0, p.1, more);
    }
  }

  // ----- the fields seen only accumulate -------------------------------------

  lemma {:induction false} SeenAccumulates(c: Config, m: Message, st: State, extra: set<nat>, b: seq<byte>)
    requires WellFormed(c, m) && Typed(c, m, st.slots)
    requires Loop(c, m, st, b).Some?
    ensures var r := Loop(c, m, st, b).value;
      Loop(c, m, st.(seen := st.seen + extra), b) == Some(r.(st := r.st.(seen := r.st.seen + extra)))
    decreases |b|
  {
    hide DecodeTag, Typed, WellFormed, DecodeSlot, Skip, Store, Lookup;
    if b != [] && DecodeTag(b).Tagged? {
      var h := DecodeTag(b);
      var p := Step(c, m, st, h.tag, h.wt, h.rest).value;
      assert Step(c, m, st.(seen := st.seen + extra), h.tag, h.wt, h.rest)
          == Some((p.0.(seen := p.0.seen + extra), p.1)) by {
        StepSeen(c, m, st, extra, h.tag, h.wt, h.rest);
      }
      SeenAccumulates(c, m, p.0, extra, p.1);
    }
  }

  lemma StepSeen(c: Config, m: Message, st: State, extra: set<nat>, tag: nat, wt: nat, b: seq<byte>)
    requires WellFormed(c, m) && Typed(c, m, st.slots)
    requires Step(c, m, st, tag, wt, b).Some?
    ensures var p := Step(c, m, st, tag, wt, b).value;
      Step(c, m, st.(seen := st.seen + extra), tag, wt, b) == Some((p.0.(seen := p.0.seen + extra), p.1))
  {
    hide Skip, DecodeSlot, LookupFrom, FieldWellFormed, SlotTyped;
    var i := Lookup(m, tag);
    assert st.seen + {i} + extra == st.seen + extra + {i};
  }

  // ----- the laws ------------------------------------------------------------

  /** Decoding a and then b into the same struct gives what decoding a + b gives,
      provided a leaves nothing unread. */
  lemma MergeLaw(c: Config, m: Message, slots: seq<Slot>, a: seq<byte>, b: seq<byte>)
    requires WellFormed(c, m) && Typed(c, m, slots)
    requires DecodeInto(c, m, slots, a).Some? && Loop(c, m, State(slots, {}), a).value.exhausted
    requires DecodeInto(c, m, DecodeInto(c, m, slots, a).value, b).Some?
    ensures DecodeInto(c, m, slots, a + b) == DecodeInto(c, m, DecodeInto(c, m, slots, a).value, b)
  {
    hide Loop, Typed, WellFormed;
    var first := Loop(c, m, State(slots, {}), a).value.st;
    LoopAppend(c, m, State(slots, {}), a, b);
    SeenAccumulates(c, m, State(first.slots, {}), first.seen, b);
    assert State(first.slots, {}).(seen := {} + first.seen) == first;
  }

  /** One field that the message does not know, whole and well formed. */
  predicate IsUnknownField(m: Message, u: seq<byte>) {
    var h := DecodeTag(u);
    && h.Tagged? && Lookup(m, h.tag) == |m.fields| && (m.fields == [] ==> h.tag != 0)
    && Skip(h.wt, h.rest) == Some([])
  }

  /** An unknown field between fields changes nothing, not even an error later on. */
  lemma UnknownFieldIgnored(c: Config, m: Message, slots: seq<Slot>, a: seq<byte>, u: seq<byte>, b: seq<byte>)
    requires WellFormed(c, m) && Typed(c, m, slots) && IsUnknownField(m, u)
    requires Loop(c, m, State(slots, {}), a).Some? && Loop(c, m, State(slots, {}), a).value.exhausted
    ensures DecodeInto(c, m, slots, a + u + b) == DecodeInto(c, m, slots, a + b)
  {
    hide Typed, WellFormed, Skip, DecodeTag, Lookup;
    var st := State(slots, {});
    var mid := Loop(c, m, st, a).value.st;
    assert Loop(c, m, mid, u + b) == Loop(c, m, mid, b) by {
      var h := DecodeTag(u);
      TagLocal(u, b);
      SkipLocal(h.wt, h.rest, b);
      assert [] + b == b;
    }
    LoopAppend(c, m, st, a, b);
    LoopAppend(c, m, st, a, u + b);
    assert a + u + b == a + (u + b);
  }

  /** Why the merge law asks that nothing is left unread: a zero where a tag is expected
      ends the message, and whatever follows is ignored. */
  lemma ZeroEndsTheMessage(c: Config, m: Message, slots: seq<Slot>, a: seq<byte>, b: seq<byte>)
    requires WellFormed(c, m) && Typed(c, m, slots)
    requires Loop(c, m, State(slots, {}), a).Some? && Loop(c, m, State(slots, {}), a).value.exhausted
    ensures DecodeInto(c, m, slots, a + [0] + b) == DecodeInto(c, m, slots, a)
  {
    hide Typed, WellFormed;
    var mid := Loop(c, m, State(slots, {}), a).value.st;
    assert Parse([0] + b, 5) == Some((0, 1));
    assert DecodeTag([0] + b).Eof?;
    LoopAppend(c, m, State(slots, {}), a, [0] + b);
    assert a + [0] + b == a + ([0] + b);
  }

  /** The embedded form of the merge law: a singular message field that comes in two
      records holds what one record with both bodies would give it. */
  lemma SplitRecordsMerge(c: Config, f: Field, v: Value, a: seq<byte>, b: seq<byte>)
    requires FieldWellFormed(c, f) && f.ltype.SubmessageT? && ValueTyped(c, f, v)
    requires |a + b| < WORD32
    requires DecodeInto(c, f.ltype.sub, v.slots, a).Some? && Loop(c, f.ltype.sub, State(v.slots, {}), a).value.exhausted
    requires DecodeInto(c, f.ltype.sub, DecodeInto(c, f.ltype.sub, v.slots, a).value, b).Some?
    ensures var once := DecodeOver(c, f, v, Delimited(a));
      && once.Some? && once.value.1 == []
      && DecodeOver(c, f, once.value.0, Delimited(b)) == DecodeOver(c, f, v, Delimited(a + b))
  {
    hide Loop, Typed, WellFormed, DecodeInto, Encode, Parse;
    SubstreamOfDelimited(a, []);
    SubstreamOfDelimited(b, []);
    SubstreamOfDelimited(a + b, []);
    assert Delimited(a) + [] == Delimited(a);
    assert Delimited(b) + [] == Delimited(b);
    assert Delimited(a + b) + [] == Delimited(a + b);
    MergeLaw(c, f.ltype.sub, v.slots, a, b);
  }

  lemma SubstreamOfDelimited(body: seq<byte>, rest: seq<byte>)
    requires |body| < WORD32
    ensures Substream(Delimited(body) + rest) == Some((body, rest))
  {
    hide Encode, Parse;
    var n := |Encode(|body|)|;
    var b := Delimited(body) + rest;
    assert b == Encode(|body|) + (body + rest);
    RoundTrip32(|body|, body + rest);
    assert b[n..] == body + rest;
    assert (body + rest)[..|body|] == body;
    assert (body + rest)[|body|..] == rest;
  }
}
