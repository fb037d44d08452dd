/**
 The DTLS anti-replay window: a 64-bit map of the record numbers up to the
 largest one accepted (RFC 6347, section 4.1.2.6).
 */
module ReplayWindow {

  // ----- shifts of a 64-bit map by a bit-vector amount -----------------------

  function Shl(m: bv64, a: bv7): bv64
    requires a < 64
  {
    m << a
  }

  function SetAt(m: bv64, a: bv7): bv64
    requires a < 64
  {
    m | (1 << a)
  }

  predicate IsSetAt(m: bv64, a: bv7)
    requires a < 64
  {
    m & (1 << a) != 0
  }

  lemma ShiftsCompose(m: bv64, a: bv7)
    requires 0 < a < 64
    ensures m << a == (m << (a - 1)) << 1
  {}

  lemma ShiftByOneMovesBit(m: bv64, a: bv7)
    requires 0 < a < 64
    ensures (m << 1) & (1 << a) != 0 <==> m & (1 << (a - 1)) != 0
  {}

  lemma OrTouchesOneBit(m: bv64, k: bv7, a: bv7)
    requires k < 64 && a < 64
    ensures (m | (1 << k)) & (1 << a) != 0 <==> (a == k || m & (1 << a) != 0)
  {}

  lemma ShlStep(m: bv64, a: bv7)
    requires 0 < a < 64
    ensures Shl(m, a) == Shl(Shl(m, a - 1), 1)
  {
    ShiftsCompose(m, a);
  }

  lemma SetAtShlByOne(m: bv64, a: bv7)
    requires 0 < a < 64
    ensures IsSetAt(Shl(m, 1), a) <==> IsSetAt(m, a - 1)
  {
    ShiftByOneMovesBit(m, a);
  }

  lemma ShlByOneClearsLowest(m: bv64)
    ensures !IsSetAt(Shl(m, 1), 0)
  {}

  lemma ShlByZero(m: bv64)
    ensures Shl(m, 0) == m
  {}

  lemma SetAtTouchesOneBit(m: bv64, k: bv7, a: bv7)
    requires k < 64 && a < 64
    ensures IsSetAt(SetAt(m, k), a) <==> (a == k || IsSetAt(m, a))
  {
    OrTouchesOneBit(m, k, a);
  }

  // ----- the same by a number ------------------------------------------------

  /** The number as an amount to shift by, counted up rather than cast. */
  function Amount(i: nat): (a: bv7)
    requires i < 64
    ensures a < 64 && a as nat == i
  {
    if i == 0 then 0
    else
      SuccessorCast(Amount(i - 1));
      Amount(i - 1) + 1
  }

  lemma SuccessorCast(a: bv7)
    ensures a as nat < 63 ==> (a + 1) as nat == a as nat + 1 && a + 1 < 64
    ensures (0 as bv7) as nat == 0
  {}

  lemma AmountOfPredecessor(i: nat)
    requires 0 < i < 64
    ensures 0 < Amount(i) && Amount(i - 1) == Amount(i) - 1
  {
    NotZero(Amount(i));
  }

  lemma NotZero(a: bv7)
    ensures a as nat > 0 ==> a > 0
  {}

  predicate Bit(m: bv64, i: nat)
    requires i < 64
  {
    IsSetAt(m, Amount(i))
  }

  lemma BitOfSet(m: bv64, k: nat, i: nat)
    requires k < 64 && i < 64
    ensures Bit(SetAt(m, Amount(k)), i) <==> (i == k || Bit(m, i))
  {
    hide SetAt, IsSetAt, Amount;
    SetAtTouchesOneBit(m, Amount(k), Amount(i));
  }

  lemma ShlStepByNumber(m: bv64, s: nat)
    requires 0 < s < 64
    ensures Shl(m, Amount(s)) == Shl(Shl(m, Amount(s - 1)), 1)
  {
    hide Shl, Amount;
    AmountOfPredecessor(s);
    ShlStep(m, Amount(s));
  }

  lemma BitOfShlByOne(m: bv64, i: nat)
    requires i < 64
    ensures Bit(Shl(m, 1), i) <==> i > 0 && Bit(m, i - 1)
  {
    hide Shl, Amount, IsSetAt;
    if i == 0 {
      AmountOfZero();
      ShlByOneClearsLowest(m);
    } else {
      AmountOfPredecessor(i);
      SetAtShlByOne(m, Amount(i));
    }
  }

  lemma {:induction false} BitOfShl(m: bv64, s: nat, i: nat)
    requires s < 64 && i < 64
    ensures Bit(Shl(m, Amount(s)), i) <==> s <= i && Bit(m, i - s)
  {
    hide Shl, Bit, Amount;
    if s == 0 {
      AmountOfZero();
      ShlByZero(m);
    } else {
      ShlStepByNumber(m, s);
      BitOfShlByOne(Shl(m, Amount(s - 1)), i);
      if i > 0 {
        BitOfShl(m, s - 1, i - 1);
      }
    }
  }

  lemma AmountOfZero()
    ensures Amount(0) == 0
  {}

  // ----- the window ----------------------------------------------------------

  const WINDOW_SIZE: nat := 64

  /** The two fields of the replay bitmap; a fresh one is all zeroes. */
  datatype Window = Window(bits: bv64, max: nat)

  const FRESH := Window(0, 0)

  predicate ShouldDiscard(w: Window, n: nat) {
    n <= w.max && (w.max - n >= WINDOW_SIZE || Bit(w.bits, w.max - n))
  }

  function SlideTo(w: Window, n: nat): Window {
    if n <= w.max then w
    else if n - w.max >= WINDOW_SIZE then Window(0, n)
    else Window(Shl(w.bits, Amount(n - w.max)), n)
  }

  function Record(w: Window, n: nat): Window {
    var s := SlideTo(w, n);
    if s.max - n < WINDOW_SIZE then s.(bits := SetAt(s.bits, Amount(s.max - n))) else s
  }

  predicate InWindow(w: Window, m: nat) {
    m <= w.max < m + WINDOW_SIZE
  }

  predicate Holds(w: Window, m: nat)
    requires InWindow(w, m)
  {
    Bit(w.bits, w.max - m)
  }

  /** The window stands for the set of numbers recorded since it was fresh. */
  ghost predicate Represents(w: Window, seen: set<nat>) {
    && (seen == {} ==> w.max == 0)
    && (seen != {} ==> w.max in seen)
    && (forall m :: m in seen ==> m <= w.max)
    && (forall m: nat :: InWindow(w, m) ==> (Holds(w, m) <==> m in seen))
  }

  lemma FreshRepresentsNothing()
    ensures Represents(FRESH, {})
  {
    forall m: nat | InWindow(FRESH, m)
      ensures !Holds(FRESH, m)
    {
      BitOfZero(FRESH.max - m);
    }
  }

  lemma BitOfZero(i: nat)
    requires i < 64
    ensures !Bit(0, i)
  {
    hide Amount;
  }

  lemma SlideKeepsBits(w: Window, seen: set<nat>, n: nat, m: nat)
    requires Represents(w, seen) && n > w.max && InWindow(SlideTo(w, n), m)
    ensures Holds(SlideTo(w, n), m) <==> m in seen
  {
    hide Bit, Shl, Amount;
    if n - w.max >= WINDOW_SIZE {
      BitOfZero(n - m);
    } else {
      BitOfShl(w.bits, n - w.max, n - m);
      if m <= w.max {
        assert InWindow(w, m);
        assert Holds(w, m) <==> m in seen;
      }
    }
  }

  lemma RecordRepresents(w: Window, seen: set<nat>, n: nat)
    requires Represents(w, seen)
    ensures Represents(Record(w, n), seen + {n})
  {
    hide Bit, Shl, Amount, SetAt;
    var r := Record(w, n);
    assert n in seen + {n};
    forall m: nat | InWindow(r, m)
      ensures Holds(r, m) <==> m in seen + {n}
    {
      RecordKeepsBits(w, seen, n, m);
    }
  }

  lemma RecordKeepsBits(w: Window, seen: set<nat>, n: nat, m: nat)
    requires Represents(w, seen) && InWindow(Record(w, n), m)
    ensures Holds(Record(w, n), m) <==> m in seen || m == n
  {
    hide Bit, Shl, Amount, SetAt;
    var s := SlideTo(w, n);
    assert InWindow(s, m);
    if n > w.max {
      SlideKeepsBits(w, seen, n, m);
    }
    assert Holds(s, m) <==> m in seen;
    if s.max - n < WINDOW_SIZE {
      BitOfSet(s.bits, s.max - n, s.max - m);
    }
  }

  /** The largest recorded number is 64 or more above n. */
  ghost predicate FallenBehind(seen: set<nat>, n: nat) {
    exists m :: m in seen && n + WINDOW_SIZE <= m
  }

  /** RFC 6347, section 4.1.2.6: reject exactly the repeated and the too old. */
  lemma DiscardsExactly(w: Window, seen: set<nat>, n: nat)
    requires Represents(w, seen)
    ensures ShouldDiscard(w, n) <==> n in seen || FallenBehind(seen, n)
  {
    hide Bit;
    if n <= w.max && w.max - n < WINDOW_SIZE {
      assert InWindow(w, n);
      assert Holds(w, n) <==> n in seen;
    }
  }
}
