/**
 The @STRENGTH command: one ORD pass per strength in use, strongest first, is a
 stable descending sort of the active ciphers.
 */
module CipherStrength {
  import opened CipherRules

  function OrdRule(bits: nat): Rule {
    Rule(Ord, Selector(0, 0, 0, 0, 0, 0, bits), false)
  }

  predicate HasBits<T>(e: Entry<T>, bits: nat) {
    e.active && StrengthBits(e.cipher) == bits
  }

  function MaxBits<T>(es: seq<Entry<T>>): nat {
    if es == [] then 0
    else
      var rest := MaxBits(es[1..]);
      if es[0].active && StrengthBits(es[0].cipher) > rest then StrengthBits(es[0].cipher) else rest
  }

  /** How many active entries have the given strength. */
  function Uses<T>(es: seq<Entry<T>>, bits: nat): nat {
    if es == [] then 0 else (if HasBits(es[0], bits) then 1 else 0) + Uses(es[1..], bits)
  }

  function Greater(a: nat, b: nat): nat {
    if a > b then a else b
  }

  lemma MaxBitsStep<T>(es: seq<Entry<T>>)
    requires es != []
    ensures MaxBits(es) == if es[0].active then Greater(StrengthBits(es[0].cipher), MaxBits(es[1..]))
                           else MaxBits(es[1..])
    ensures forall b: nat :: Uses(es, b) == (if HasBits(es[0], b) then 1 else 0) + Uses(es[1..], b)
  {}

  lemma NothingToMeasure<T>()
    ensures MaxBits<T>([]) == 0 && forall b: nat :: Uses<T>([], b) == 0
  {}

  lemma {:induction false} WithinMax<T>(es: seq<Entry<T>>, i: nat)
    requires i < |es| && es[i].active
    ensures StrengthBits(es[i].cipher) <= MaxBits(es)
    decreases |es|
  {
    if i > 0 {
      WithinMax(es[1..], i - 1);
    }
  }

  /** The passes from strength `bits` down, skipping unused strengths of `orig`. */
  function Passes<T>(orig: seq<Entry<T>>, es: seq<Entry<T>>, bits: int): seq<Entry<T>>
    requires bits >= -1
    decreases bits
  {
    if bits < 0 then es
    else Passes(orig, if Uses(orig, bits) > 0 then Apply(OrdRule(bits), es) else es, bits - 1)
  }

  function StrengthSort<T>(es: seq<Entry<T>>): seq<Entry<T>> {
    Passes(es, es, MaxBits(es))
  }

  // ----- what the passes have done so far ------------------------------------

  /** Entries not yet moved when all strengths of at least `bits` are done. */
  function Below<T>(es: seq<Entry<T>>, bits: int): seq<Entry<T>> {
    if es == [] then []
    else (if es[0].active && StrengthBits(es[0].cipher) >= bits then [] else [es[0]]) + Below(es[1..], bits)
  }

  /** The active entries of one strength, in their order. */
  function OfStrength<T>(es: seq<Entry<T>>, bits: nat): seq<Entry<T>> {
    Moved(OrdRule(bits), es)
  }

  /** Strengths high, high - 1, ..., low, one after another. */
  function Descending<T>(es: seq<Entry<T>>, high: int, low: nat): seq<Entry<T>>
    decreases high
  {
    if high < low then [] else OfStrength(es, high) + Descending(es, high - 1, low)
  }

  function Inactive<T>(es: seq<Entry<T>>): seq<Entry<T>> {
    if es == [] then [] else (if es[0].active then [] else [es[0]]) + Inactive(es[1..])
  }

  lemma {:induction false} OfStrengthAll<T>(es: seq<Entry<T>>, bits: nat)
    ensures forall e :: e in OfStrength(es, bits) ==> HasBits(e, bits)
    decreases |es|
  {
    hide StrengthBits;
    if es != [] {
      OfStrengthAll(es[1..], bits);
    }
  }

  lemma {:induction false} PassOverBelow<T>(es: seq<Entry<T>>, bits: nat)
    ensures Kept(OrdRule(bits), Below(es, bits + 1)) == Below(es, bits)
    ensures OfStrength(Below(es, bits + 1), bits) == OfStrength(es, bits)
    decreases |es|
  {
    hide StrengthBits;
    if es != [] {
      PassOverBelow(es[1..], bits);
      var first := if es[0].active && StrengthBits(es[0].cipher) >= bits + 1 then [] else [es[0]];
      KeptAppend(OrdRule(bits), first, Below(es[1..], bits + 1));
      KeptOne(OrdRule(bits), es[0]);
    }
  }

  lemma {:induction false} PassOverStronger<T>(es: seq<Entry<T>>, bits: nat)
    requires forall e :: e in es ==> !HasBits(e, bits)
    ensures Kept(OrdRule(bits), es) == es && OfStrength(es, bits) == []
    decreases |es|
  {
    hide StrengthBits;
    if es != [] {
      assert es[0] in es;
      PassOverStronger(es[1..], bits);
    }
  }

  lemma {:induction false} DescendingAll<T>(es: seq<Entry<T>>, high: int, low: nat)
    ensures forall e :: e in Descending(es, high, low) ==> e.active && low <= StrengthBits(e.cipher) <= high
    decreases high
  {
    hide StrengthBits, OfStrength;
    if high >= low {
      OfStrengthAll(es, high);
      DescendingAll(es, high - 1, low);
    }
  }

  lemma {:induction false} DescendingExtends<T>(es: seq<Entry<T>>, high: int, low: nat)
    requires high >= low
    ensures Descending(es, high, low) == Descending(es, high, low + 1) + OfStrength(es, low)
    decreases high
  {
    hide OfStrength;
    if high > low {
      DescendingExtends(es, high - 1, low);
    }
  }

  /** One pass moves the strongest entries left behind the ones already placed. */
  lemma OnePass<T>(es: seq<Entry<T>>, high: nat, bits: nat)
    requires bits <= high
    ensures Apply(OrdRule(bits), Below(es, bits + 1) + Descending(es, high, bits + 1))
         == Below(es, bits) + Descending(es, high, bits)
  {
    hide StrengthBits, Kept, Moved, Below, Descending;
    var below, done := Below(es, bits + 1), Descending(es, high, bits + 1);
    DescendingAll(es, high, bits + 1);
    PassOverStronger(done, bits);
    PassOverBelow(es, bits);
    KeptAppend(OrdRule(bits), below, done);
    DescendingExtends(es, high, bits);
    assert Below(es, bits) + done + OfStrength(es, bits) == Below(es, bits) + (done + OfStrength(es, bits));
  }

  lemma {:induction false} UnusedStrength<T>(es: seq<Entry<T>>, bits: nat)
    requires Uses(es, bits) == 0
    ensures OfStrength(es, bits) == [] && Below(es, bits + 1) == Below(es, bits)
    decreases |es|
  {
    hide StrengthBits;
    if es != [] {
      UnusedStrength(es[1..], bits);
    }
  }

  lemma {:induction false} PassesFromBelow<T>(es: seq<Entry<T>>, high: nat, bits: int)
    requires -1 <= bits <= high
    ensures Passes(es, Below(es, bits + 1) + Descending(es, high, bits + 1), bits)
         == Below(es, 0) + Descending(es, high, 0)
    decreases bits
  {
    hide Below, Descending, OfStrength, Apply, Uses;
    if bits >= 0 {
      if Uses(es, bits) > 0 {
        OnePass(es, high, bits);
      } else {
        UnusedStrength(es, bits);
        DescendingExtends(es, high, bits);
        assert Descending(es, high, bits + 1) + [] == Descending(es, high, bits + 1);
      }
      PassesFromBelow(es, high, bits - 1);
    }
  }

  lemma {:induction false} NoneAboveMax<T>(es: seq<Entry<T>>, high: nat)
    requires MaxBits(es) <= high
    ensures Below(es, high + 1) == es && Below(es, 0) == Inactive(es)
    decreases |es|
  {
    hide StrengthBits;
    if es != [] {
      NoneAboveMax(es[1..], high);
    }
  }

  /** The closed form of the passes. */
  lemma StrengthSortForm<T>(es: seq<Entry<T>>)
    ensures StrengthSort(es) == Inactive(es) + Descending(es, MaxBits(es), 0)
  {
    hide Below, Inactive, MaxBits, Passes, OfStrength;
    var high := MaxBits(es);
    NoneAboveMax(es, high);
    PassesFromBelow(es, high, high);
    assert es + Descending(es, high, high + 1) == es;
  }

  // ----- stable descending sort ----------------------------------------------

  predicate BitsDescend<T>(es: seq<Entry<T>>) {
    forall i, j :: 0 <= i < j < |es| ==> StrengthBits(es[i].cipher) >= StrengthBits(es[j].cipher)
  }

  lemma {:induction false} DescendingDescends<T>(es: seq<Entry<T>>, high: int, low: nat)
    ensures BitsDescend(Descending(es, high, low))
    decreases high
  {
    hide StrengthBits, OfStrength;
    if high >= low {
      OfStrengthAll(es, high);
      DescendingAll(es, high - 1, low);
      DescendingDescends(es, high - 1, low);
      var first, rest := OfStrength(es, high), Descending(es, high - 1, low);
      var both: seq<Entry<T>> := first + rest;
      forall i, j | 0 <= i < j < |both|
        ensures StrengthBits(both[i].cipher) >= StrengthBits(both[j].cipher)
      {
        if j < |first| {
          assert first[i] in first && first[j] in first;
        } else if i < |first| {
          assert first[i] in first && rest[j - |first|] in rest;
        }
      }
    }
  }

  lemma {:induction false} OfStrengthAgain<T>(es: seq<Entry<T>>, bits: nat)
    ensures OfStrength(OfStrength(es, bits), bits) == OfStrength(es, bits)
    decreases |es|
  {
    hide StrengthBits;
    if es != [] {
      OfStrengthAgain(es[1..], bits);
      var first := if Moves(OrdRule(bits), es[0]) then [Touch(OrdRule(bits), es[0])] else [];
      KeptAppend(OrdRule(bits), first, OfStrength(es[1..], bits));
      if first != [] {
        KeptOne(OrdRule(bits), first[0]);
      }
    }
  }

  lemma {:induction false} OfStrengthOfDescending<T>(es: seq<Entry<T>>, high: int, bits: nat)
    ensures OfStrength(Descending(es, high, 0), bits) == if bits <= high then OfStrength(es, bits) else []
    decreases high
  {
    hide StrengthBits, Moved;
    if high < 0 {
      NoneOfNothing<T>(bits);
    } else {
      var first := OfStrength(es, high);
      KeptAppend(OrdRule(bits), first, Descending(es, high - 1, 0));
      OfStrengthOfDescending(es, high - 1, bits);
      OfStrengthAll(es, high);
      if bits == high {
        OfStrengthAgain(es, bits);
      } else {
        PassOverStronger(first, bits);
      }
    }
  }

  lemma NoneOfNothing<T>(bits: nat)
    ensures OfStrength<T>([], bits) == []
  {}

  lemma {:induction false} InactiveAll<T>(es: seq<Entry<T>>)
    ensures forall e :: e in Inactive(es) ==> !e.active && e in es
    decreases |es|
  {
    if es != [] {
      InactiveAll(es[1..]);
    }
  }

  lemma {:induction false} NoneStrongerThanMax<T>(es: seq<Entry<T>>, bits: nat)
    requires bits > MaxBits(es)
    ensures OfStrength(es, bits) == []
    decreases |es|
  {
    hide StrengthBits;
    if es != [] {
      NoneStrongerThanMax(es[1..], bits);
    }
  }

  /** Inactive ciphers come first in their old order; the active ones follow with
      descending strength, and those of equal strength keep their old order. */
  lemma StrengthSortIsStable<T>(es: seq<Entry<T>>, bits: nat)
    ensures Inactive(es) <= StrengthSort(es)
    ensures var active := StrengthSort(es)[|Inactive(es)|..];
            && (forall e :: e in active ==> e.active)
            && BitsDescend(active)
            && OfStrength(active, bits) == OfStrength(es, bits)
  {
    hide StrengthBits, Moved, Inactive, MaxBits, StrengthSort, Descending;
    StrengthSortForm(es);
    InactiveAll(es);
    DescendingAll(es, MaxBits(es), 0);
    DescendingDescends(es, MaxBits(es), 0);
    OfStrengthOfDescending(es, MaxBits(es), bits);
    if bits > MaxBits(es) {
      NoneStrongerThanMax(es, bits);
    }
    assert StrengthSort(es)[|Inactive(es)|..] == Descending(es, MaxBits(es), 0);
  }
}
