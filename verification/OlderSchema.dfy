/**
 An older schema reads newer messages: what the encoder writes for a field that a schema
 does not have is skipped whole, and the fields it has come back as they would without.
 */
module OlderSchema {
  import opened Common
  import opened Varint
  import opened Schema
  import opened Encoding
  import opened Decoding
  import opened RoundTrip
  import Merging

  // ----- one value -----------------------------------------------------------

  lemma SkipVarint(v: nat, rest: seq<byte>)
    requires v < WORD64
    ensures Skip(WT_VARINT, Encode(v) + rest) == Some(rest)
  {
    hide FitsIn, Encode, Parse;
    var b := Encode(v) + rest;
    WordsFit(v);
    RoundTrip64(v, rest);
    EncodeLengthFits(v);
    ParseOfEncode(v, |Encode(v)|, rest);
    ParseLonger(b, |Encode(v)|, |b|);
    assert b[|Encode(v)|..] == rest;
  }

  lemma {:induction false} EncodeLengthFits(v: nat)
    ensures FitsIn(v, |Encode(v)|)
    decreases v
  {
    if v >= 0x80 {
      EncodeLengthFits(v / 0x80);
    }
  }

  lemma SkipFixed(wt: nat, payload: seq<byte>, rest: seq<byte>)
    requires (wt == WT_32BIT && |payload| == 4) || (wt == WT_64BIT && |payload| == 8)
    ensures Skip(wt, payload + rest) == Some(rest)
  {
    assert (payload + rest)[|payload|..] == rest;
  }

  lemma SkipDelimited(body: seq<byte>, rest: seq<byte>)
    requires |body| < WORD32
    ensures Skip(WT_STRING, Delimited(body) + rest) == Some(rest)
  {
    hide Encode, Parse, Substream;
    Merging.SubstreamOfDelimited(body, rest);
  }

  /** Skipping by the wire type of a field passes over exactly one value of it, whatever
      follows. */
  lemma SkipPassesValue(c: Config, f: Field, v: Value, rest: seq<byte>)
    requires FieldWellFormed(c, f) && ValueTyped(c, f, v)
    requires EncodeValue(c, f, v).Some? && |EncodeValue(c, f, v).value| < WORD32
    ensures Skip(WireType(f.ltype), EncodeValue(c, f, v).value + rest) == Some(rest)
  {
    hide Encode, Parse, Substream, Skip;
    var e := EncodeValue(c, f, v).value;
    match f.ltype
    case VarintT => SkipVarint(ToWord(v.i), rest);
    case UvarintT => SkipVarint(v.i, rest);
    case SvarintT => ZigZagRoundTrip(v.i); SkipVarint(ZigZag(v.i), rest);
    case Fixed32T => SkipFixed(WT_32BIT, e, rest);
    case Fixed64T => SkipFixed(WT_64BIT, e, rest);
    case BytesT => SkipDelimited(v.b, rest);
    case StringT => SkipDelimited(CString(v.b), rest);
    case FixedBytesT => SkipDelimited(v.b, rest);
    case SubmessageT(sub) => SkipDelimited(EncodeMessage(c, sub, v.slots).value, rest);
  }

  // ----- one field -----------------------------------------------------------

  /** The schema has no field of this number. */
  predicate Lacks(m: Message, tag: nat) {
    forall i :: 0 <= i < |m.fields| ==> m.fields[i].tag != tag
  }

  /** A tag that the schema lacks, and a value that skips to what follows. */
  lemma RecordIgnored(c: Config, m: Message, st: State, wt: nat, tag: nat, payload: seq<byte>, rest: seq<byte>)
    requires WellFormed(c, m) && Typed(c, m, st.slots) && Lacks(m, tag) && 0 < tag < 0x2000_0000 && wt < 8
    requires Skip(wt, payload + rest) == Some(rest)
    ensures Loop(c, m, st, Tag(wt, tag) + payload + rest) == Loop(c, m, st, rest)
  {
    hide Tag, DecodeTag, Skip, LookupFrom, Typed, WellFormed, DecodeSlot;
    HeadOfTag(wt, tag, payload + rest);
    assert Tag(wt, tag) + payload + rest == Tag(wt, tag) + (payload + rest);
    assert Lookup(m, tag) == |m.fields|;
    assert Step(c, m, st, tag, wt, payload + rest) == Some((st, rest));
  }

  lemma TaggedIgnored(c: Config, m: Message, st: State, f: Field, v: Value, rest: seq<byte>)
    requires WellFormed(c, m) && Typed(c, m, st.slots) && Lacks(m, f.tag)
    requires FieldWellFormed(c, f) && ValueTyped(c, f, v)
    requires EncodeTagged(c, f, v).Some? && |EncodeTagged(c, f, v).value| < WORD32
    ensures Loop(c, m, st, EncodeTagged(c, f, v).value + rest) == Loop(c, m, st, rest)
  {
    hide Tag, Skip, Typed, WellFormed, EncodeValue, Loop;
    var e := EncodeValue(c, f, v).value;
    SkipPassesValue(c, f, v, rest);
    RecordIgnored(c, m, st, WireType(f.ltype), f.tag, e, rest);
  }

  lemma {:induction false} ItemsIgnored(c: Config, m: Message, st: State, f: Field, items: seq<Value>, rest: seq<byte>)
    requires WellFormed(c, m) && Typed(c, m, st.slots) && Lacks(m, f.tag) && FieldWellFormed(c, f)
    requires forall k :: 0 <= k < |items| ==> ValueTyped(c, f, items[k])
    requires EncodeItems(c, f, items, true).Some? && |EncodeItems(c, f, items, true).value| < WORD32
    ensures Loop(c, m, st, EncodeItems(c, f, items, true).value + rest) == Loop(c, m, st, rest)
    decreases |items|
  {
    hide Typed, WellFormed, EncodeTagged, Loop, ValueTyped, FieldWellFormed, Lacks;
    if items == [] {
      assert [] + rest == rest;
    } else {
      var e := EncodeTagged(c, f, items[0]).value;
      var more := EncodeItems(c, f, items[1..], true).value;
      TaggedIgnored(c, m, st, f, items[0], more + rest);
      ItemsIgnored(c, m, st, f, items[1..], rest);
      assert e + more + rest == e + (more + rest);
    }
  }

  /** What is written for a field that the schema lacks changes nothing. */
  lemma FieldIgnored(c: Config, m: Message, st: State, f: Field, s: Slot, rest: seq<byte>)
    requires WellFormed(c, m) && Typed(c, m, st.slots) && Lacks(m, f.tag)
    requires FieldWellFormed(c, f) && SlotTyped(c, f, s)
    requires EncodeField(c, f, s).Some? && |EncodeField(c, f, s).value| < WORD32
    ensures Loop(c, m, st, EncodeField(c, f, s).value + rest) == Loop(c, m, st, rest)
  {
    hide Typed, WellFormed, EncodeTagged, EncodeItems, Loop, ValueTyped, Lacks, Tag, Skip, IsZero;
    var e := EncodeField(c, f, s).value;
    if e == [] {
      assert [] + rest == rest;
    } else {
      match f.htype
      case Repeated =>
        if Packable(f.ltype) {
          var body := EncodeItems(c, f, s.items, false).value;
          SkipDelimited(body, rest);
          RecordIgnored(c, m, st, WT_STRING, f.tag, Delimited(body), rest);
        } else {
          ItemsIgnored(c, m, st, f, s.items, rest);
        }
      case Required => TaggedIgnored(c, m, st, f, s.v, rest);
      case Optional(_) => TaggedIgnored(c, m, st, f, s.v, rest);
      case Oneof(_) => TaggedIgnored(c, m, st, f, s.member.value, rest);
    }
  }

  // ----- whole messages ------------------------------------------------------

  /** Of the first i elements, those to keep. */
  function Front<X>(xs: seq<X>, keep: seq<bool>, i: nat): (r: seq<X>)
    requires i <= |xs| == |keep|
    ensures |r| <= i
  {
    if i == 0 then [] else Front(xs, keep, i - 1) + if keep[i - 1] then [xs[i - 1]] else []
  }

  /** The schema with some of the fields only. */
  function Older(m: Message, keep: seq<bool>): Message
    requires |keep| == |m.fields|
  {
    Message(Front(m.fields, keep, |keep|))
  }

  function OlderSlots(slots: seq<Slot>, keep: seq<bool>): seq<Slot>
    requires |keep| == |slots|
  {
    Front(slots, keep, |keep|)
  }

  lemma {:induction false} FrontGrows<X>(xs: seq<X>, keep: seq<bool>, i: nat, n: nat)
    requires i <= n <= |xs| == |keep|
    ensures Front(xs, keep, i) <= Front(xs, keep, n)
    decreases n
  {
    if i < n {
      FrontGrows(xs, keep, i, n - 1);
    }
  }

  lemma {:induction false} FrontLengths<X, Y>(xs: seq<X>, ys: seq<Y>, keep: seq<bool>, i: nat)
    requires i <= |xs| == |ys| == |keep|
    ensures |Front(xs, keep, i)| == |Front(ys, keep, i)|
    decreases i
  {
    if i > 0 {
      FrontLengths(xs, ys, keep, i - 1);
    }
  }

  /** The k-th element kept is some element, and the places of two are in order. */
  lemma {:induction false} FrontSource<X>(xs: seq<X>, keep: seq<bool>, n: nat, k: nat) returns (i: nat)
    requires n <= |xs| == |keep| && k < |Front(xs, keep, n)|
    ensures i < n && keep[i] && |Front(xs, keep, i)| == k && Front(xs, keep, n)[k] == xs[i]
    decreases n
  {
    if k < |Front(xs, keep, n - 1)| {
      i := FrontSource(xs, keep, n - 1, k);
    } else {
      i := n - 1;
    }
  }

  lemma SourcesInOrder<X>(xs: seq<X>, keep: seq<bool>, i: nat, j: nat)
    requires i <= |xs| == |keep| && j <= |xs| && |Front(xs, keep, i)| < |Front(xs, keep, j)|
    ensures i < j
  {
    if j <= i {
      FrontGrows(xs, keep, j, i);
    }
  }

  lemma OlderWellFormed(c: Config, m: Message, keep: seq<bool>)
    requires WellFormed(c, m) && |keep| == |m.fields|
    ensures WellFormed(c, Older(m, keep))
  {
    hide FieldWellFormed, Front;
    var few := Older(m, keep);
    forall k | 0 <= k < |few.fields|
      ensures FieldWellFormed(c, few.fields[k])
    {
      var i := FrontSource(m.fields, keep, |keep|, k);
    }
    forall k, l | 0 <= k < l < |few.fields|
      ensures few.fields[k].tag != few.fields[l].tag
    {
      var i := FrontSource(m.fields, keep, |keep|, k);
      var j := FrontSource(m.fields, keep, |keep|, l);
      SourcesInOrder(m.fields, keep, i, j);
    }
  }

  lemma OlderTyped(c: Config, m: Message, slots: seq<Slot>, keep: seq<bool>)
    requires Typed(c, m, slots) && |keep| == |slots|
    ensures Typed(c, Older(m, keep), OlderSlots(slots, keep))
  {
    hide SlotTyped, Front;
    var few, older := Older(m, keep), OlderSlots(slots, keep);
    FrontLengths(m.fields, slots, keep, |keep|);
    forall k | 0 <= k < |older|
      ensures SlotTyped(c, few.fields[k], older[k])
    {
      var i := SameSource(m, slots, keep, k);
    }
    forall k, l | 0 <= k < l < |older| && SameOneof(few, k, l) && older[k].Choice? && older[l].Choice?
      ensures older[k].member.None? || older[l].member.None?
    {
      var i := SameSource(m, slots, keep, k);
      var j := SameSource(m, slots, keep, l);
      SourcesInOrder(slots, keep, i, j);
      assert SameOneof(m, i, j);
    }
  }

  lemma SameSource(m: Message, slots: seq<Slot>, keep: seq<bool>, k: nat) returns (i: nat)
    requires |keep| == |slots| == |m.fields| && k < |OlderSlots(slots, keep)|
    ensures i < |slots| && keep[i] && |Front(slots, keep, i)| == |Front(m.fields, keep, i)| == k
    ensures k < |Older(m, keep).fields| && Older(m, keep).fields[k] == m.fields[i] && OlderSlots(slots, keep)[k]
        == slots[i]
  {
    i := FrontSource(slots, keep, |keep|, k);
    FrontLengths(m.fields, slots, keep, i);
    FrontLengths(m.fields, slots, keep, i + 1);
    FrontGrows(m.fields, keep, i + 1, |keep|);
  }

  lemma DroppedIsLacking(c: Config, m: Message, keep: seq<bool>, i: nat)
    requires WellFormed(c, m) && i < |m.fields| == |keep| && !keep[i]
    ensures Lacks(Older(m, keep), m.fields[i].tag)
  {
    hide FieldWellFormed, Front;
    var few := Older(m, keep);
    forall k | 0 <= k < |few.fields|
      ensures few.fields[k].tag != m.fields[i].tag
    {
      var j := FrontSource(m.fields, keep, |keep|, k);
    }
  }

  lemma {:induction false} NewerFrom(c: Config, m: Message, slots: seq<Slot>, keep: seq<bool>, i: nat)
    requires WellFormed(c, m) && Typed(c, m, slots) && |keep| == |slots| && i <= |slots|
    requires WellFormed(c, Older(m, keep)) && Typed(c, Older(m, keep), OlderSlots(slots, keep))
    requires Terminated(c, Older(m, keep), OlderSlots(slots, keep))
    requires EncodeFrom(c, m, slots, i).Some? && |EncodeFrom(c, m, slots, i).value| < WORD32
    ensures var (few, older) := (Older(m, keep), OlderSlots(slots, keep));
            var k := |Front(slots, keep, i)|;
            && k <= |few.fields| == |older|
            && Typed(c, few, Progress(c, few, older, k))
            && Loop(c, few, State(Progress(c, few, older, k), RequiredBefore(few, k)), EncodeFrom(c, m, slots, i).value)
               == Some(Stop(State(RebuiltMessage(c, few, older), RequiredBefore(few, |older|)), [], true))
    decreases |slots| - i
  {
    hide WellFormed, FieldWellFormed, SlotTyped, SlotTerminated, EncodeField, RebuiltSlot, DefaultSlot, Step,
         DecodeTag, Alone, Front, Terminated, Progress;
    var few, older := Older(m, keep), OlderSlots(slots, keep);
    var k := |Front(slots, keep, i)|;
    SameLengths(c, m, slots, keep);
    FrontGrows(slots, keep, i, |keep|);
    ProgressTyped(c, few, older, k);
    var st := State(Progress(c, few, older, k), RequiredBefore(few, k));
    if i == |slots| {
      ProgressEnds(c, few, older);
    } else {
      FieldIsTyped(c, m, slots, i);
      var e, rest := EncodeField(c, m.fields[i], slots[i]).value, EncodeFrom(c, m, slots, i + 1).value;
      NewerFrom(c, m, slots, keep, i + 1);
      FrontStep(slots, keep, i);
      if keep[i] {
        KeptPlace(m, slots, keep, i);
        OlderField(c, few, older, k, rest);
      } else {
        DroppedIsLacking(c, m, keep, i);
        FieldIgnored(c, few, st, m.fields[i], slots[i], rest);
      }
    }
  }

  lemma SameLengths(c: Config, m: Message, slots: seq<Slot>, keep: seq<bool>)
    requires Typed(c, m, slots) && |keep| == |slots|
    ensures |slots| == |m.fields| && |Older(m, keep).fields| == |OlderSlots(slots, keep)|
  {
    FrontLengths(m.fields, slots, keep, |keep|);
  }

  lemma ProgressEnds(c: Config, m: Message, slots: seq<Slot>)
    requires Typed(c, m, slots)
    ensures Progress(c, m, slots, |slots|) == RebuiltMessage(c, m, slots)
  {
    hide SlotTyped, RebuiltSlot, DefaultSlot;
  }

  lemma FieldIsTyped(c: Config, m: Message, slots: seq<Slot>, i: nat)
    requires WellFormed(c, m) && Typed(c, m, slots) && i < |slots|
    ensures FieldWellFormed(c, m.fields[i]) && SlotTyped(c, m.fields[i], slots[i])
  {
    hide FieldWellFormed, SlotTyped;
  }

  lemma FrontStep<X>(xs: seq<X>, keep: seq<bool>, i: nat)
    requires i < |xs| == |keep|
    ensures |Front(xs, keep, i + 1)| == |Front(xs, keep, i)| + if keep[i] then 1 else 0
  {}

  lemma KeptPlace(m: Message, slots: seq<Slot>, keep: seq<bool>, i: nat)
    requires |keep| == |slots| == |m.fields| && i < |slots| && keep[i]
    ensures var k := |Front(slots, keep, i)|;
            k < |Older(m, keep).fields| == |OlderSlots(slots, keep)|
            && Older(m, keep).fields[k] == m.fields[i] && OlderSlots(slots, keep)[k] == slots[i]
  {
    FrontLengths(m.fields, slots, keep, i);
    FrontLengths(m.fields, slots, keep, |keep|);
    FrontGrows(m.fields, keep, i + 1, |keep|);
    FrontGrows(slots, keep, i + 1, |keep|);
  }

  /** One field that the older schema has is taken from the front of the input. */
  lemma OlderField(c: Config, m: Message, slots: seq<Slot>, k: nat, rest: seq<byte>)
    requires WellFormed(c, m) && Typed(c, m, slots) && Terminated(c, m, slots) && k < |slots|
    requires SlotTyped(c, m.fields[k], slots[k]) && EncodeField(c, m.fields[k], slots[k]).Some?
    requires |EncodeField(c, m.fields[k], slots[k]).value| < WORD32
    ensures Typed(c, m, Progress(c, m, slots, k)) && Typed(c, m, Progress(c, m, slots, k + 1))
    ensures Loop(c, m, State(Progress(c, m, slots, k), RequiredBefore(m, k)),
                 EncodeField(c, m.fields[k], slots[k]).value + rest)
         == Loop(c, m, State(Progress(c, m, slots, k + 1), RequiredBefore(m, k + 1)), rest)
  {
    hide WellFormed, FieldWellFormed, SlotTyped, SlotTerminated, EncodeField, RebuiltSlot, DefaultSlot, Step,
         DecodeTag, Alone, Loop;
    ProgressTyped(c, m, slots, k);
    ProgressTyped(c, m, slots, k + 1);
    FieldIsFine(c, m, slots, k);
    ProgressNext(c, m, slots, k);
    FieldRoundTrip(c, m, State(Progress(c, m, slots, k), RequiredBefore(m, k)), k, slots[k], rest);
    assert RequiredBefore(m, k + 1)
      == if m.fields[k].htype.Required? then RequiredBefore(m, k) + {k} else RequiredBefore(m, k);
  }

  /** An older schema, with any of the fields left out, decodes what a newer one encodes:
      every byte is read, and the result is what it would make of a message without those
      fields. */
  lemma OlderReadsNewer(c: Config, m: Message, slots: seq<Slot>, keep: seq<bool>)
    requires WellFormed(c, m) && Typed(c, m, slots) && |keep| == |slots|
    requires EncodeMessage(c, m, slots).Some? && |EncodeMessage(c, m, slots).value| < WORD32
    ensures WellFormed(c, Older(m, keep)) && Typed(c, Older(m, keep), OlderSlots(slots, keep))
    ensures Terminated(c, Older(m, keep), OlderSlots(slots, keep)) ==>
              DecodeMessage(c, Older(m, keep), EncodeMessage(c, m, slots).value)
              == Some(RebuiltMessage(c, Older(m, keep), OlderSlots(slots, keep)))
  {
    hide WellFormed, Typed, Terminated, Loop, EncodeFrom, RebuiltMessage, Older, OlderSlots;
    KeepsLength(c, m, slots);
    var few, older := Older(m, keep), OlderSlots(slots, keep);
    OlderWellFormed(c, m, keep);
    OlderTyped(c, m, slots, keep);
    if Terminated(c, few, older) {
      NewerFrom(c, m, slots, keep, 0);
      assert Front(slots, keep, 0) == [];
      BeginsWithDefaults(c, few, older);
      AllRequiredSeen(few, |older|);
    }
  }

  lemma KeepsLength(c: Config, m: Message, slots: seq<Slot>)
    requires Typed(c, m, slots)
    ensures |slots| == |m.fields|
  {}

  lemma BeginsWithDefaults(c: Config, m: Message, slots: seq<Slot>)
    requires Typed(c, m, slots)
    ensures Progress(c, m, slots, 0) == Defaults(m) && RequiredBefore(m, 0) == {} && |slots| == |m.fields|
  {
    hide RebuiltSlot, DefaultSlot;
  }

  lemma AllRequiredSeen(m: Message, n: nat)
    requires n == |m.fields|
    ensures AllRequired(m, RequiredBefore(m, n))
  {}
}
