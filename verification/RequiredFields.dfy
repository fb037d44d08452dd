/**
 The check of required fields on inputs: when the decoder's test of its two words of bits
 leaves its bounds, and messages that make it do so.
 */
module RequiredFields {
  import opened Common
  import opened Varint
  import opened Schema
  import opened Encoding
  import opened Decoding
  import opened FieldsSeen
  import opened Layout
  import opened StreamDecoder
  import FieldIter
  import RoundTrip

  /** Of all required fields, those that the whole words of the test are about. */
  ghost predicate WholeWordsSeen(m: Message, seen: set<nat>) {
    forall i :: 0 <= i < |m.fields| && m.fields[i].htype.Required? && InWholeWords(m, i) ==> i in seen
  }

  predicate InWholeWords(m: Message, i: nat)
    requires i < |m.fields|
  {
    Index(m, i) < 64 && Index(m, i) < 32 * (Index(m, |m.fields|) / 32)
  }

  /** After the decoding loop, the test leaves its bounds if and only if their number is
      not testable and the fields of the whole words have all occurred. */
  lemma TestLeavesExactly(m: Message, words: seq<bv32>, seen: set<nat>)
    requires |words| == 2 && Tracks(m, words, seen)
    ensures Leaves(words, Index(m, |m.fields|)) <==>
              !Testable(Index(m, |m.fields|)) && WholeWordsSeen(m, seen)
  {
    hide Seen, Index;
    var n := Index(m, |m.fields|);
    if WholeWordsSeen(m, seen) {
      forall k | 0 <= k < 64 && k < 32 * (n / 32)
        ensures Seen(words, k)
      {
        var i := IndexIsTaken(m, |m.fields|, k);
      }
    }
  }

  /** Every message that the encoder writes and whose strings have terminators takes the
      test out of its bounds if and only if the number of required fields is not testable. */
  lemma EncodedLeavesExactly(c: Config, m: Message, slots: seq<Slot>, words: seq<bv32>)
    requires WellFormed(c, m) && Typed(c, m, slots) && RoundTrip.Terminated(c, m, slots)
    requires EncodeMessage(c, m, slots).Some? && |EncodeMessage(c, m, slots).value| < WORD32
    ensures Typed(c, m, Defaults(m))
    ensures var stop := Loop(c, m, State(Defaults(m), {}), EncodeMessage(c, m, slots).value);
            && stop.Some?
            && (|words| == 2 && Tracks(m, words, stop.value.st.seen) ==>
                  (Leaves(words, Index(m, |m.fields|)) <==> !Testable(Index(m, |m.fields|))))
  {
    hide Loop, EncodeMessage, Leaves, RoundTrip.Terminated, Typed, WellFormed, Tracks, DecodeInto, Index;
    RoundTrip.MessageRoundTrip(c, m, slots);
    SameLength(c, m, slots);
    var seen := RoundTrip.RequiredBefore(m, |slots|);
    AllAreSeen(m);
    if |words| == 2 && Tracks(m, words, seen) {
      TestLeavesExactly(m, words, seen);
    }
  }

  lemma SameLength(c: Config, m: Message, slots: seq<Slot>)
    requires Typed(c, m, slots)
    ensures |slots| == |m.fields|
  {}

  lemma AllAreSeen(m: Message)
    ensures WholeWordsSeen(m, RoundTrip.RequiredBefore(m, |m.fields|))
  {
    hide Index;
    forall i | 0 <= i < |m.fields| && m.fields[i].htype.Required?
      ensures i in RoundTrip.RequiredBefore(m, |m.fields|)
    {
      SeenBefore(m, i, |m.fields|);
    }
  }

  lemma {:induction false} SeenBefore(m: Message, i: nat, n: nat)
    requires i < n <= |m.fields| && m.fields[i].htype.Required?
    ensures i in RoundTrip.RequiredBefore(m, n)
    decreases n
  {
    if i < n - 1 {
      SeenBefore(m, i, n - 1);
    }
  }

  // ----- an input ------------------------------------------------------------

  /** A struct of n zeros. */
  function Zeros(n: nat): (slots: seq<Slot>)
    ensures |slots| == n
  {
    seq(n, _ => Single(Int(0)))
  }

  lemma ZerosAreTyped(c: Config, n: nat)
    requires c.sizeMax >= 4 && n < 0x1000_0000
    ensures WellFormed(c, Numbers(n)) && Typed(c, Numbers(n), Zeros(n)) && RoundTrip.Terminated(c, Numbers(n), Zeros(n))
  {
    NumbersCheckableExactly(c, n);
  }

  /** Each field takes at most twenty bytes. */
  lemma {:induction false} ZerosEncode(c: Config, n: nat, i: nat)
    requires c.sizeMax >= 4 && i <= n < 0x1000_0000 && Typed(c, Numbers(n), Zeros(n))
    ensures var e := EncodeFrom(c, Numbers(n), Zeros(n), i); e.Some? && |e.value| <= 20 * (n - i)
    decreases n - i
  {
    hide EncodeField, Typed;
    if i < n {
      ZerosEncode(c, n, i + 1);
      ZeroEncodes(c, i + 1);
    }
  }

  lemma ZeroEncodes(c: Config, tag: nat)
    requires tag < 0x2000_0000
    ensures var f := Number(tag);
            && SlotTyped(c, f, Single(Int(0)))
            && EncodeField(c, f, Single(Int(0))).Some? && |EncodeField(c, f, Single(Int(0))).value| <= 20
  {
    hide Encode;
    var f := Number(tag);
    var tagged := EncodeTagged(c, f, Int(0));
    RoundTrip64(8 * tag + WireType(f.ltype), []);
    RoundTrip64(0, []);
    assert EncodeValue(c, f, Int(0)) == Some(Encode(0));
    assert tagged == Some(Tag(WireType(f.ltype), tag) + Encode(0));
    assert EncodeField(c, f, Single(Int(0))) == tagged;
  }

  /** An input for which the test leaves its bounds: the encoding of 32 zeros, for the
      schema of 32 required integers. Reading it sets all bits of the first word, and the
      test goes on to shift by the width of the word. */
  lemma ThirtyTwoFieldsLeave(c: Config) returns (b: seq<byte>, words: seq<bv32>)
    requires c.sizeMax >= 4
    ensures var m := Numbers(32);
            && WellFormed(c, m) && Typed(c, m, Zeros(32)) && EncodeMessage(c, m, Zeros(32)) == Some(b)
            && Typed(c, m, Defaults(m)) && Loop(c, m, State(Defaults(m), {}), b).Some?
            && words == [ALL_BITS, 0] && Tracks(m, words, Loop(c, m, State(Defaults(m), {}), b).value.st.seen)
            && Leaves(words, Index(m, |m.fields|))
  {
    hide Loop, EncodeFrom, Leaves, RoundTrip.Terminated, Typed, WellFormed, Tracks, FieldIter.RequiredBefore, Index;
    var m := Numbers(32);
    ZerosAreTyped(c, 32);
    ZerosEncode(c, 32, 0);
    b := EncodeMessage(c, m, Zeros(32)).value;
    words := [ALL_BITS, 0];
    RoundTrip.MessageRoundTrip(c, m, Zeros(32));
    FirstWordTracks(m);
    EncodedLeavesExactly(c, m, Zeros(32), words);
  }

  lemma FirstWordTracks(m: Message)
    requires m == Numbers(32)
    ensures Tracks(m, [ALL_BITS, 0], RoundTrip.RequiredBefore(m, 32)) && Index(m, |m.fields|) == 32
  {
    hide Bit, Index;
    forall i | 0 <= i <= 32
      ensures Index(m, i) == i
    {
      IndexOfNumber(i);
    }
    AllBitsAreOnes();
    OnesExactly(ALL_BITS, 32);
    forall i: nat | i < 32
      ensures i in RoundTrip.RequiredBefore(m, 32) && Seen([ALL_BITS, 0], i)
    {
      SeenBefore(m, i, 32);
      assert Bit(ALL_BITS, i);
    }
    forall k | 32 <= k < 64
      ensures !Seen([ALL_BITS, 0], k)
    {
      NothingSeen(k);
      assert [0, 0][k / 32] == [ALL_BITS, 0][k / 32];
    }
  }

  lemma IndexOfNumber(i: nat)
    requires i <= 32
    ensures Index(Numbers(32), i) == i
  {
    NumbersAreRequired(32, i);
  }
}
