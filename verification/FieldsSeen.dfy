/**
 The decoder's record of the required fields it has met: one bit each in two 32-bit words.
 */
module FieldsSeen {
  const ALL_BITS: bv32 := 0xFFFF_FFFF

  // ----- bits of a word ------------------------------------------------------

  predicate IsSetAt(w: bv32, a: bv6)
    requires a < 32
  {
    w & (1 << a) != 0
  }

  function SetAt(w: bv32, a: bv6): bv32
    requires a < 32
  {
    w | (1 << a)
  }

  function Above(w: bv32, a: bv6): bv32
    requires a <= 32
  {
    w >> a
  }

  lemma OrTouchesOneBit(w: bv32, k: bv6, a: bv6)
    requires k < 32 && a < 32
    ensures (w | (1 << k)) & (1 << a) != 0 <==> (a == k || w & (1 << a) != 0)
  {}

  lemma SetTouchesOneBit(w: bv32, k: bv6, a: bv6)
    requires k < 32 && a < 32
    ensures IsSetAt(SetAt(w, k), a) <==> (a == k || IsSetAt(w, a))
  {
    OrTouchesOneBit(w, k, a);
  }

  lemma OnesAreLow(n: bv6, a: bv6)
    requires 0 < n < 32 && a < 32
    ensures IsSetAt(Above(ALL_BITS, 32 - n), a) <==> a < n
  {}

  lemma OneMoreBit(x: bv32, y: bv32, a: bv6)
    requires a < 32 && Above(x, a + 1) == Above(y, a + 1) && (IsSetAt(x, a) <==> IsSetAt(y, a))
    ensures Above(x, a) == Above(y, a)
  {}

  lemma Outermost(x: bv32, y: bv32)
    ensures Above(x, 32) == Above(y, 32)
    ensures Above(x, 0) == Above(y, 0) ==> x == y
  {}

  lemma AllSet(a: bv6)
    requires a < 32
    ensures IsSetAt(ALL_BITS, a) && !IsSetAt(0, a)
  {}

  // ----- the same by number --------------------------------------------------

  function Amount(i: nat): (a: bv6)
    requires i <= 32
  {
    i as bv6
  }

  lemma AmountRoundTrip(i: nat)
    requires i <= 32
    ensures Amount(i) as nat == i
  {}

  lemma OrderOfCasts(a: bv6, b: bv6)
    ensures a < b <==> a as nat < b as nat
  {}

  lemma CastsDiffer(a: bv6, b: bv6)
    requires a as nat == b as nat
    ensures a == b
  {}

  lemma ArithmeticOfCasts(a: bv6)
    requires a < 32
    ensures (a + 1) as nat == a as nat + 1 && (32 - a) as nat == 32 - a as nat
  {}

  lemma SmallCasts()
    ensures (0 as bv6) as nat == 0 && (32 as bv6) as nat == 32
  {}

  lemma AmountFacts(i: nat, k: nat)
    requires i <= 32 && k <= 32
    ensures Amount(i) <= 32 && (Amount(i) < Amount(k) <==> i < k) && (Amount(i) == Amount(k) <==> i == k)
    ensures Amount(0) == 0 && Amount(32) == 32
  {
    hide Amount;
    SmallCasts();
    AmountRoundTrip(i);
    AmountRoundTrip(k);
    AmountRoundTrip(0);
    AmountRoundTrip(32);
    CastsDiffer(Amount(0), 0);
    CastsDiffer(Amount(32), 32);
    OrderOfCasts(Amount(i), Amount(k));
    OrderOfCasts(32, Amount(i));
  }

  lemma AmountArithmetic(i: nat)
    requires i < 32
    ensures Amount(i + 1) == Amount(i) + 1 && Amount(32 - i) == 32 - Amount(i)
  {
    hide Amount;
    AmountFacts(i, 32);
    AmountRoundTrip(i);
    AmountRoundTrip(i + 1);
    AmountRoundTrip(32 - i);
    ArithmeticOfCasts(Amount(i));
    CastsDiffer(Amount(i + 1), Amount(i) + 1);
    CastsDiffer(Amount(32 - i), 32 - Amount(i));
  }

  predicate Bit(w: bv32, i: nat)
    requires i < 32
  {
    AmountFacts(i, 32);
    IsSetAt(w, Amount(i))
  }

  /** Words with the same bits from a on agree above a. */
  lemma {:induction false} SameAbove(x: bv32, y: bv32, a: nat)
    requires a <= 32 && forall i :: a <= i < 32 ==> (Bit(x, i) <==> Bit(y, i))
    ensures Amount(a) <= 32 && Above(x, Amount(a)) == Above(y, Amount(a))
    decreases 32 - a
  {
    hide IsSetAt, Above, Amount;
    AmountFacts(a, 32);
    if a == 32 {
      Outermost(x, y);
    } else {
      SameAbove(x, y, a + 1);
      AmountArithmetic(a);
      assert Bit(x, a) <==> Bit(y, a);
      OneMoreBit(x, y, Amount(a));
    }
  }

  lemma SameBitsSameWord(x: bv32, y: bv32)
    requires forall i :: 0 <= i < 32 ==> (Bit(x, i) <==> Bit(y, i))
    ensures x == y
  {
    hide Bit, Above, Amount;
    SameAbove(x, y, 0);
    AmountFacts(0, 0);
    Outermost(x, y);
  }

  /** The n lowest bits, n positive: what allbits >> (32 - n) gives. */
  function Ones(n: nat): bv32
    requires 0 < n <= 32
  {
    AmountFacts(32 - n, 32);
    Above(ALL_BITS, Amount(32 - n))
  }

  lemma BitOfOnes(n: nat, i: nat)
    requires 0 < n <= 32 && i < 32
    ensures Bit(Ones(n), i) <==> i < n
  {
    hide IsSetAt, Above, Amount;
    AmountFacts(i, n);
    AmountFacts(i, 32);
    AmountFacts(n, 32);
    AmountFacts(32 - n, 32);
    if n == 32 {
      AllAbove();
      AllSet(Amount(i));
    } else {
      AmountFacts(0, n);
      AmountArithmetic(n);
      OnesAreLow(Amount(n), Amount(i));
    }
  }

  lemma AllAbove()
    ensures Amount(0) == 0 && Above(ALL_BITS, 0) == ALL_BITS
  {
    hide Amount;
    AmountFacts(0, 0);
  }

  lemma OnesExactly(w: bv32, n: nat)
    requires 0 < n <= 32
    ensures w == Ones(n) <==> forall i :: 0 <= i < 32 ==> (Bit(w, i) <==> i < n)
  {
    hide Bit, Ones;
    forall i | 0 <= i < 32 ensures Bit(Ones(n), i) <==> i < n {
      BitOfOnes(n, i);
    }
    if forall i :: 0 <= i < 32 ==> (Bit(w, i) <==> i < n) {
      SameBitsSameWord(w, Ones(n));
    }
  }

  // ----- the two words -------------------------------------------------------

  predicate Seen(words: seq<bv32>, k: nat)
    requires |words| == 2 && k < 64
  {
    Bit(words[k / 32], k % 32)
  }

  lemma NothingSeen(k: nat)
    requires k < 64
    ensures !Seen([0, 0], k)
  {
    hide IsSetAt, Amount;
    AmountFacts(k % 32, 32);
    AllSet(Amount(k % 32));
  }

  lemma BitOfSet(w: bv32, k: nat, i: nat)
    requires k < 32 && i < 32
    ensures Amount(k) < 32 && (Bit(SetAt(w, Amount(k)), i) <==> i == k || Bit(w, i))
  {
    hide IsSetAt, SetAt, Amount;
    AmountFacts(i, k);
    AmountFacts(k, 32);
    AmountFacts(i, 32);
    SetTouchesOneBit(w, Amount(k), Amount(i));
  }

  /** fields_seen[k >> 5] |= 1 << (k & 31) */
  method MarkSeen(words: array<bv32>, k: nat)
    requires words.Length == 2 && k < 64
    modifies words
    ensures forall i :: 0 <= i < 64 ==> (Seen(words[..], i) <==> i == k || old(Seen(words[..], i)))
  {
    hide Bit, SetAt, Amount;
    ghost var was := words[..];
    AmountFacts(k % 32, 32);
    words[k / 32] := SetAt(words[k / 32], Amount(k % 32));
    forall i | 0 <= i < 64 ensures Seen(words[..], i) <==> i == k || Seen(was, i) {
      if i / 32 == k / 32 {
        BitOfSet(was[k / 32], k % 32, i % 32);
      }
    }
  }

  /** The counts of required fields for which the test of the two words is defined. */
  predicate Testable(count: nat) {
    count < 64 && (count == 0 || count % 32 != 0)
  }

  /** The test reads a word behind the second or shifts by the width of a word: all the
      whole words it looks at before are full. */
  predicate Leaves(words: seq<bv32>, count: nat)
    requires |words| == 2
  {
    && count > 0 && (count / 32 >= 2 || 32 - count % 32 >= 32)
    && forall k :: 0 <= k < 64 && k < 32 * (count / 32) ==> Seen(words, k)
  }

  /** A count can take the test out of its bounds if and only if it is 64 or more, or a
      positive multiple of 32. */
  lemma StaysInBoundsExactly(count: nat)
    ensures (forall words: seq<bv32> :: |words| == 2 ==> !Leaves(words, count)) <==> Testable(count)
  {
    hide Bit;
    if !Testable(count) {
      AllBitsAreOnes();
      OnesExactly(ALL_BITS, 32);
      assert Leaves([ALL_BITS, ALL_BITS], count);
    }
  }

  datatype Verdict = Complete | Missing | OutOfBounds

  /** Whether the bits of all `count` required fields are set, as the decoder tests it:
      whole words first, then the rest. */
  method AllSeen(words: array<bv32>, count: nat) returns (v: Verdict)
    requires words.Length == 2
    requires forall k :: count <= k < 64 ==> !Seen(words[..], k)
    ensures v.OutOfBounds? <==> Leaves(words[..], count)
    ensures v.Complete? ==> count < 64 && forall k :: 0 <= k < count ==> Seen(words[..], k)
    ensures v.Missing? ==> exists k :: 0 <= k < count && k < 64 && !Seen(words[..], k)
  {
    hide Bit, Ones;
    if count == 0 {
      return Complete;
    }
    ghost var w := words[..];
    var i := 0;
    while i < count / 32
      invariant i <= count / 32 && i <= 2 && forall k :: 0 <= k < 32 * i ==> Seen(w, k)
    {
      if i == 2 {
        return OutOfBounds;
      }
      OnesExactly(words[i], 32);
      AllBitsAreOnes();
      if words[i] != ALL_BITS {
        ghost var j :| 0 <= j < 32 && !Bit(words[i], j);
        ghost var k := 32 * i + j;
        assert 0 <= k < count && k / 32 == i && k % 32 == j;
        assert !Seen(words[..], k);
        return Missing;
      }
      forall k | 32 * i <= k < 32 * i + 32 ensures Seen(w, k) {
        assert Bit(words[i], k - 32 * i);
      }
      i := i + 1;
    }
    if i == 2 || count % 32 == 0 {
      return OutOfBounds;
    }
    OnesExactly(words[count / 32], count % 32);
    LastWord(w, count);
    v := if words[count / 32] == Ones(count % 32) then Complete else Missing;
  }

  lemma AllBitsAreOnes()
    ensures Ones(32) == ALL_BITS
  {
    AllAbove();
  }

  lemma LastWord(w: seq<bv32>, count: nat)
    requires |w| == 2 && count < 64 && count % 32 != 0
    requires forall k :: count <= k < 64 ==> !Seen(w, k)
    ensures (forall i :: 0 <= i < 32 ==> (Bit(w[count / 32], i) <==> i < count % 32))
       <==> (forall k :: 32 * (count / 32) <= k < count ==> Seen(w, k))
  {
    hide Bit, Seen;
    var word := count / 32;
    forall i | 0 <= i < 32
      ensures Seen(w, 32 * word + i) == Bit(w[word], i)
    {
      SeenInWord(w, word, i);
    }
    if forall k :: 32 * word <= k < count ==> Seen(w, k) {
      forall i | 0 <= i < 32
        ensures Bit(w[word], i) <==> i < count % 32
      {
        assert Seen(w, 32 * word + i) == Bit(w[word], i);
      }
    }
    if forall i :: 0 <= i < 32 ==> (Bit(w[word], i) <==> i < count % 32) {
      forall k | 32 * word <= k < count
        ensures Seen(w, k)
      {
        var i := k - 32 * word;
        assert Seen(w, 32 * word + i) == Bit(w[word], i);
      }
    }
  }

  lemma SeenInWord(w: seq<bv32>, word: nat, i: nat)
    requires |w| == 2 && word < 2 && i < 32
    ensures Seen(w, 32 * word + i) == Bit(w[word], i)
  {
    hide Bit;
    WordOf(word, i);
  }

  lemma WordOf(word: nat, i: nat)
    requires i < 32
    ensures (32 * word + i) / 32 == word && (32 * word + i) % 32 == i
  {}
}
