/**
 Base 128 varints and ZigZag, as the Protocol Buffers Encoding specification
 defines them. Machine words are numbers; truncation is written out.
 */
module Varint {
  import opened Common

  const WORD32: nat := 0x1_0000_0000
  const WORD64: nat := 0x1_0000_0000_0000_0000
  const SIGN64: nat := 0x8000_0000_0000_0000

  // ----- the format ----------------------------------------------------------

  function Encode(v: nat): (b: seq<byte>)
    ensures |b| >= 1
  {
    if v < 0x80 then [v] else [v % 0x80 + 0x80] + Encode(v / 0x80)
  }

  /** The value and length of a varint of at most `max` bytes at the front. */
  function Parse(b: seq<byte>, max: nat): (r: Option<(nat, nat)>)
    ensures r.Some? ==> 0 < r.value.1 <= |b| && r.value.1 <= max
    decreases max
  {
    if max == 0 || b == [] then None
    else if b[0] < 0x80 then Some((b[0], 1))
    else
      var rest := Parse(b[1..], max - 1);
      if rest.None? then None else Some((b[0] - 0x80 + 0x80 * rest.value.0, rest.value.1 + 1))
  }

  /** v needs at most n groups of seven bits. */
  predicate FitsIn(v: nat, n: nat) {
    if n == 0 then false else v < 0x80 || FitsIn(v / 0x80, n - 1)
  }

  lemma {:induction false} EncodeLength(v: nat, n: nat)
    requires FitsIn(v, n)
    ensures |Encode(v)| <= n
    decreases n
  {
    if v >= 0x80 {
      EncodeLength(v / 0x80, n - 1);
    }
  }

  function Power128(n: nat): (p: nat)
    ensures p > 0
  {
    if n == 0 then 1 else 0x80 * Power128(n - 1)
  }

  lemma DivideTwice(v: nat, p: nat)
    requires p > 0
    ensures v / 0x80 / p == v / (0x80 * p)
  {
    var q, r := v / 0x80 / p, v % 0x80 + 0x80 * (v / 0x80 % p);
    assert v == (0x80 * p) * q + r;
    assert 0 <= r < 0x80 * p;
    QuotientIs(v, 0x80 * p, q, r);
  }

  lemma QuotientIs(v: nat, d: nat, q: nat, r: nat)
    requires v == d * q + r && r < d
    ensures v / d == q
  {
    var e: int := v / d - q;
    assert d * e == r - v % d;
    assert e >= 1 ==> d * e >= d;
    assert e <= -1 ==> d * e + d <= 0;
  }

  /** Digit k of the number in base 128. */
  function Digit(v: nat, k: nat): nat {
    v / Power128(k) % 0x80
  }

  lemma DigitStep(v: nat, k: nat)
    ensures Digit(v, 0) == v % 0x80 && Digit(v, k + 1) == Digit(v / 0x80, k)
  {
    DivideTwice(v, Power128(k));
  }

  lemma EncodeStep(v: nat)
    ensures Encode(v) == if v < 0x80 then [v] else [v % 0x80 + 0x80] + Encode(v / 0x80)
  {}

  /** The bytes of a varint: seven bits each, least significant first, with the top bit
      set in all but the last. */
  lemma {:induction false} EncodeDigits(v: nat, k: nat)
    requires k < |Encode(v)|
    ensures Encode(v)[k] == Digit(v, k) + if k + 1 < |Encode(v)| then 0x80 else 0
    decreases v
  {
    hide Digit, Encode;
    EncodeStep(v);
    DigitStep(v, if k == 0 then 0 else k - 1);
    if k > 0 {
      EncodeDigits(v / 0x80, k - 1);
    }
  }

  /** There are no more bytes than the number needs. */
  lemma {:induction false} EncodeIsShort(v: nat)
    ensures v < Power128(|Encode(v)|) && (|Encode(v)| > 1 ==> v >= Power128(|Encode(v)| - 1))
    decreases v
  {
    if v >= 0x80 {
      var n := |Encode(v / 0x80)|;
      EncodeIsShort(v / 0x80);
      assert Power128(n + 1) == 0x80 * Power128(n) && Power128(n) == 0x80 * Power128(n - 1);
    }
  }

  lemma {:induction false} ParseOfEncode(v: nat, n: nat, rest: seq<byte>)
    requires FitsIn(v, n)
    ensures Parse(Encode(v) + rest, n) == Some((v, |Encode(v)|))
    decreases n
  {
    if v >= 0x80 {
      assert (Encode(v) + rest)[1..] == Encode(v / 0x80) + rest;
      ParseOfEncode(v / 0x80, n - 1, rest);
    }
  }

  lemma WordsFit(v: nat)
    ensures v < WORD64 ==> FitsIn(v, 10)
    ensures v < WORD32 ==> FitsIn(v, 5)
  {
    var a, b, c, d, e := v / 0x80, v / 0x80 / 0x80, v / 0x80 / 0x80 / 0x80, v / 0x80 / 0x80 / 0x80 / 0x80,
      v / 0x80 / 0x80 / 0x80 / 0x80 / 0x80;
    if v < WORD32 {
      SmallFits(d, 1);
      assert FitsIn(c, 2) && FitsIn(b, 3) && FitsIn(a, 4);
    }
    if v < WORD64 {
      var f, g, h, i := e / 0x80, e / 0x80 / 0x80, e / 0x80 / 0x80 / 0x80, e / 0x80 / 0x80 / 0x80 / 0x80;
      SmallFits(i, 1);
      assert FitsIn(h, 2) && FitsIn(g, 3) && FitsIn(f, 4) && FitsIn(e, 5);
      assert FitsIn(d, 6) && FitsIn(c, 7) && FitsIn(b, 8) && FitsIn(a, 9);
    }
  }

  lemma SmallFits(v: nat, n: nat)
    requires v < 0x80 && n > 0
    ensures FitsIn(v, n)
  {}

  lemma {:induction false} ParseLonger(b: seq<byte>, short: nat, long: nat)
    requires short <= long && Parse(b, short).Some?
    ensures Parse(b, long) == Parse(b, short)
    decreases short
  {
    if b[0] >= 0x80 {
      ParseLonger(b[1..], short - 1, long - 1);
    }
  }

  // ----- the decoders --------------------------------------------------------

  /** pb_decode_varint: at most ten bytes, the value truncated to 64 bits. */
  function Decode64(b: seq<byte>): (r: Option<(nat, nat)>)
    ensures r.Some? ==> 0 < r.value.1 <= |b| && r.value.0 < WORD64
  {
    var p := Parse(b, 10);
    if p.None? then None else Some((p.value.0 % WORD64, p.value.1))
  }

  /** pb_decode_varint32: at most five bytes, the value truncated to 32 bits. */
  function Decode32(b: seq<byte>): (r: Option<(nat, nat)>)
    ensures r.Some? ==> 0 < r.value.1 <= |b| && r.value.0 < WORD32
  {
    var p := Parse(b, 5);
    if p.None? then None else Some((p.value.0 % WORD32, p.value.1))
  }

  /** Every 64-bit value takes one to ten bytes and comes back. */
  lemma RoundTrip64(v: nat, rest: seq<byte>)
    requires v < WORD64
    ensures 1 <= |Encode(v)| <= 10 && Decode64(Encode(v) + rest) == Some((v, |Encode(v)|))
  {
    hide FitsIn, Encode, Parse;
    WordsFit(v);
    EncodeLength(v, 10);
    ParseOfEncode(v, 10, rest);
  }

  lemma RoundTrip32(v: nat, rest: seq<byte>)
    requires v < WORD32
    ensures |Encode(v)| <= 5 && Decode32(Encode(v) + rest) == Some((v, |Encode(v)|))
  {
    hide FitsIn, Encode, Parse;
    WordsFit(v);
    EncodeLength(v, 5);
    ParseOfEncode(v, 5, rest);
  }

  /** Where the 32-bit decoder succeeds, the 64-bit one reads the same bytes and the
      results agree modulo 2^32. */
  lemma Decode32AgreesWith64(b: seq<byte>)
    requires Decode32(b).Some?
    ensures Decode64(b).Some? && Decode64(b).value.1 == Decode32(b).value.1
    ensures Decode32(b).value.0 == Decode64(b).value.0 % WORD32
  {
    hide Parse;
    ParseLonger(b, 5, 10);
  }

  predicate Signed64(v: int) {
    -0x8000_0000_0000_0000 <= v < 0x8000_0000_0000_0000
  }

  // ----- ZigZag --------------------------------------------------------------

  function ZigZag(v: int): nat
    requires Signed64(v)
  {
    if v < 0 then -2 * v - 1 else 2 * v
  }

  function UnZigZag(n: nat): int {
    if n % 2 == 1 then -(n / 2) - 1 else n / 2
  }

  lemma ZigZagRoundTrip(v: int)
    requires Signed64(v)
    ensures ZigZag(v) < WORD64 && UnZigZag(ZigZag(v)) == v
  {}

  lemma UnZigZagRoundTrip(n: nat)
    requires n < WORD64
    ensures Signed64(UnZigZag(n)) && ZigZag(UnZigZag(n)) == n
  {}

  // ----- ZigZag as the code computes it, on unsigned words -------------------

  /** Unsigned shift by one and complement, as C defines them. */
  function ShiftLeft(w: nat): nat {
    2 * w % WORD64
  }

  function Complement(w: nat): nat
    requires w < WORD64
  {
    WORD64 - 1 - w
  }

  /** A signed 64-bit number cast to an unsigned word. */
  function ToWord(v: int): (w: nat)
    requires Signed64(v)
    ensures w < WORD64
  {
    if v < 0 then v + WORD64 else v
  }

  /** An unsigned word reread as a signed one of the same width. */
  function Signed(w: nat, half: nat): int {
    if w >= half then w - 2 * half else w
  }

  function ZigZagWord(v: int): nat
    requires Signed64(v)
  {
    if v < 0 then Complement(ShiftLeft(ToWord(v))) else ShiftLeft(ToWord(v))
  }

  function UnZigZagWord(n: nat): int
    requires n < WORD64
  {
    if n % 2 == 1 then Signed(Complement(n / 2), SIGN64) else Signed(n / 2, SIGN64)
  }

  /** Shift and complement compute the ZigZag numbering, in both directions. */
  lemma ZigZagByShifting(v: int, n: nat)
    requires Signed64(v) && n < WORD64
    ensures ZigZagWord(v) == ZigZag(v)
    ensures UnZigZagWord(n) == UnZigZag(n)
    ensures UnZigZagWord(ZigZagWord(v)) == v && ZigZagWord(UnZigZag(n)) == n
  {
    if v < 0 {
      assert ShiftLeft(ToWord(v)) == 2 * v + WORD64;
    }
    UnZigZagRoundTrip(n);
    var u := UnZigZag(n);
    if u < 0 {
      assert ShiftLeft(ToWord(u)) == 2 * u + WORD64;
    }
  }
}
