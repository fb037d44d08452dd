/**
 The order the built-in rules give, by key exchange and bulk cipher, and what may be chosen
 for a protocol version.
 */
module CipherOrder {
  import opened Common
  import opened CipherRules
  import opened CipherStrength
  import opened CipherScanner
  import opened CipherInvariants
  import opened CipherConfig
  import opened CipherMeaning
  import opened CipherChoice

  // ----- ranks ---------------------------------------------------------------

  /** No algorithm field is empty. */
  predicate Proper(c: Cipher) {
    c.mkey != 0 && c.auth != 0 && c.enc != 0 && c.mac != 0
  }

  /** ECDHE with ECDSA, then ECDHE, then the rest. */
  function KeyRank(c: Cipher): nat {
    if Hits(KEX_ECDHE, c.mkey) && Hits(AUTH_ECDSA, c.auth) then 0 else if Hits(KEX_ECDHE, c.mkey) then 1 else 2
  }

  /** AEADs, ChaCha20 first without AES in hardware; then AES-128, AES-256, triple DES. */
  function BulkRank(hasAes: bool, c: Cipher): nat {
    if hasAes then
      if Hits(ENC_AES128GCM, c.enc) then 0
      else if Hits(ENC_AES256GCM, c.enc) then 1
      else if Hits(ENC_CHACHA20POLY1305, c.enc) then 2
      else OldBulkRank(c)
    else if Hits(ENC_CHACHA20POLY1305, c.enc) then 0
    else if Hits(ENC_AES128GCM, c.enc) then 1
    else if Hits(ENC_AES256GCM, c.enc) then 2
    else OldBulkRank(c)
  }

  function OldBulkRank(c: Cipher): nat {
    if Hits(ENC_AES128, c.enc) then 3 else if Hits(ENC_AES256, c.enc) then 4 else if Hits(ENC_3DES, c.enc) then 5 else 6
  }

  /** Key exchanges without forward secrecy come last. */
  function LegacyRank(c: Cipher): nat {
    if Hits(KEX_RSA | KEX_PSK, c.mkey) then 1 else 0
  }

  /** By key exchange; by bulk cipher and then key exchange; and by forward secrecy before
      both. */
  datatype Order = Key | Bulk(hasAes: bool) | Full(hasAes: bool)

  function Rank(o: Order, c: Cipher): nat {
    match o
    case Key => KeyRank(c)
    case Bulk(hasAes) => 10 * BulkRank(hasAes, c) + KeyRank(c)
    case Full(hasAes) => 100 * LegacyRank(c) + 10 * BulkRank(hasAes, c) + KeyRank(c)
  }

  ghost predicate Sorted(o: Order, cs: seq<Cipher>) {
    forall i, j :: 0 <= i < j < |cs| ==> Rank(o, cs[i]) <= Rank(o, cs[j])
  }

  // ----- sorted sequences ----------------------------------------------------

  /** Every element of b is one of a, and two stand in the same order. */
  lemma {:induction false} PickedIsSorted(o: Order, sel: Selector, cs: seq<Cipher>)
    requires Sorted(o, cs)
    ensures Sorted(o, Picked(sel, cs)) && Sorted(o, Others(sel, cs))
    decreases |cs|
  {
    hide Selects, Rank;
    if cs != [] {
      var c, rest := cs[0], cs[1..];
      PickedIsSorted(o, sel, rest);
      PickedAreSelected(sel, rest);
      OthersAreNotSelected(sel, rest);
      forall d | d in rest
        ensures Rank(o, c) <= Rank(o, d)
      {
        var i :| 0 <= i < |rest| && rest[i] == d;
        assert cs[i + 1] == d;
      }
      FrontIsSorted(o, c, Picked(sel, rest));
      FrontIsSorted(o, c, Others(sel, rest));
      assert [] + Picked(sel, rest) == Picked(sel, rest) && [] + Others(sel, rest) == Others(sel, rest);
    }
  }

  lemma FrontIsSorted(o: Order, c: Cipher, cs: seq<Cipher>)
    requires Sorted(o, cs) && forall d :: d in cs ==> Rank(o, c) <= Rank(o, d)
    ensures Sorted(o, [c] + cs)
  {}

  lemma BothAreSorted(o: Order, a: seq<Cipher>, b: seq<Cipher>)
    requires Sorted(o, a) && Sorted(o, b) && forall x, y :: x in a && y in b ==> Rank(o, x) <= Rank(o, y)
    ensures Sorted(o, a + b)
  {
    forall i, j | 0 <= i < j < |a + b|
      ensures Rank(o, (a + b)[i]) <= Rank(o, (a + b)[j])
    {
      if i < |a| <= j {
        assert a[i] in a && b[j - |a|] in b;
      }
    }
  }

  /** The same order by another rank, where it tells no two of these apart otherwise. */
  lemma SameOrder(o: Order, other: Order, cs: seq<Cipher>)
    requires Sorted(o, cs)
    requires forall x, y :: x in cs && y in cs && Rank(o, x) <= Rank(o, y) ==> Rank(other, x) <= Rank(other, y)
    ensures Sorted(other, cs)
  {
    forall i, j | 0 <= i < j < |cs|
      ensures Rank(other, cs[i]) <= Rank(other, cs[j])
    {
      assert cs[i] in cs && cs[j] in cs && Rank(o, cs[i]) <= Rank(o, cs[j]);
    }
  }

  // ----- the built-in rules --------------------------------------------------

  function ByBulkSel(enc: bv32): Selector {
    Selector(0, ALL_ONES, ALL_ONES, enc, ALL_ONES, 0, -1)
  }

  function ByKeySel(mkey: bv32, auth: bv32): Selector {
    Selector(0, mkey, auth, ALL_ONES, ALL_ONES, 0, -1)
  }

  lemma SelectsByBulk(enc: bv32, c: Cipher)
    requires Proper(c)
    ensures Selects(ByBulkSel(enc), c) <==> Hits(enc, c.enc)
  {
    AllHit(c.mkey);
    AllHit(c.auth);
    AllHit(c.mac);
  }

  lemma SelectsByKey(mkey: bv32, auth: bv32, c: Cipher)
    requires Proper(c)
    ensures Selects(ByKeySel(mkey, auth), c) <==> Hits(mkey, c.mkey) && Hits(auth, c.auth)
  {
    AllHit(c.enc);
    AllHit(c.mac);
  }

  lemma AllHit(x: bv32)
    ensures Hits(ALL_ONES, x) <==> x != 0
  {}

  // ----- the stages of the built-in rules ------------------------------------

  /** All of these are of the ciphers collected. */
  ghost predicate Among(cs: seq<Cipher>, all: seq<Cipher>) {
    forall c :: c in cs ==> c in all
  }

  ghost predicate AllProper(cs: seq<Cipher>) {
    forall c :: c in cs ==> Proper(c)
  }

  lemma {:induction false} AllSelected(sel: Selector, cs: seq<Cipher>)
    requires forall c :: c in cs ==> Selects(sel, c)
    ensures Picked(sel, cs) == cs && Others(sel, cs) == []
    decreases |cs|
  {
    hide Selects;
    if cs != [] {
      AllSelected(sel, cs[1..]);
    }
  }

  lemma AllByKey(cs: seq<Cipher>)
    requires AllProper(cs)
    ensures Picked(ByKeySel(ALL_ONES, ALL_ONES), cs) == cs && Others(ByKeySel(ALL_ONES, ALL_ONES), cs) == []
  {
    hide Selects, Hits;
    forall c | c in cs
      ensures Selects(ByKeySel(ALL_ONES, ALL_ONES), c)
    {
      SelectsByKey(ALL_ONES, ALL_ONES, c);
      AllHit(c.mkey);
      AllHit(c.auth);
    }
    AllSelected(ByKeySel(ALL_ONES, ALL_ONES), cs);
  }

  /** Enabling the ciphers of the next bulk cipher, number k in the order. */
  lemma NextBulk(hasAes: bool, enc: bv32, k: nat, e: seq<Cipher>, d: seq<Cipher>)
    requires AllProper(d) && Sorted(Bulk(hasAes), e) && Sorted(Key, d)
    requires (forall c :: c in e ==> BulkRank(hasAes, c) < k) && (forall c :: c in d ==> BulkRank(hasAes, c) >= k)
    requires forall c :: c in d ==> (Hits(enc, c.enc) <==> BulkRank(hasAes, c) == k)
    ensures var sel := ByBulkSel(enc);
            && Sorted(Bulk(hasAes), e + Picked(sel, d)) && Sorted(Key, Others(sel, d)) && AllProper(Others(sel, d))
            && (forall c :: c in e + Picked(sel, d) ==> BulkRank(hasAes, c) < k + 1)
            && (forall c :: c in Others(sel, d) ==> BulkRank(hasAes, c) >= k + 1)
  {
    hide Selects, Hits, BulkRank, KeyRank;
    var sel := ByBulkSel(enc);
    PickedIsSorted(Key, sel, d);
    PickedAreSelected(sel, d);
    OthersAreNotSelected(sel, d);
    forall c | c in d
      ensures Selects(sel, c) <==> BulkRank(hasAes, c) == k
    {
      SelectsByBulk(enc, c);
    }
    SameOrder(Key, Bulk(hasAes), Picked(sel, d));
    KeyIsSmall();
    BothAreSorted(Bulk(hasAes), e, Picked(sel, d));
  }

  lemma KeyIsSmall()
    ensures forall c :: KeyRank(c) <= 2
  {}

  /** Enabled and disabled ciphers. */
  type Pair = (seq<Cipher>, seq<Cipher>)

  function PairOf<T>(es: seq<Entry<T>>): Pair {
    (Enabled(es), Disabled(es))
  }

  function RulePair(r: Rule, p: Pair): Pair {
    match r.kind
    case Add => (p.0 + Picked(r.sel, p.1), Others(r.sel, p.1))
    case Ord => (Others(r.sel, p.0) + Picked(r.sel, p.0), p.1)
    case Del => (Others(r.sel, p.0), Picked(r.sel, p.0) + p.1)
    case Kill => (Others(r.sel, p.0), Others(r.sel, p.1))
  }

  function PairAfter(cs: seq<Command>, p: Pair): Pair
    requires forall c :: c in cs ==> c.ApplyRule?
    decreases |cs|
  {
    if cs == [] then p
    else
      assert cs[0] in cs;
      PairAfter(cs[1..], RulePair(cs[0].rule, p))
  }

  lemma {:induction false} RunPairs<T>(cs: seq<Command>, es: seq<Entry<T>>)
    requires forall c :: c in cs ==> c.ApplyRule?
    ensures PairOf(Run(cs, es)) == PairAfter(cs, PairOf(es))
    decreases |cs|
  {
    hide Apply, Enabled, Disabled, Picked, Others;
    if cs != [] {
      assert cs[0] in cs;
      ApplyMeans(cs[0].rule, es);
      RunPairs(cs[1..], Apply(cs[0].rule, es));
    }
  }

  lemma {:induction false} PairConcat(a: seq<Command>, b: seq<Command>, p: Pair)
    requires forall c :: c in a + b ==> c.ApplyRule?
    ensures (forall c :: c in a ==> c.ApplyRule?) && (forall c :: c in b ==> c.ApplyRule?)
    ensures PairAfter(a + b, p) == PairAfter(b, PairAfter(a, p))
    decreases |a|
  {
    hide RulePair;
    assert forall c :: c in a || c in b ==> c in a + b;
    if a == [] {
      assert a + b == b;
    } else {
      assert (a + b)[1..] == a[1..] + b;
      PairConcat(a[1..], b, RulePair(a[0].rule, p));
    }
  }

  lemma PairStep(c: Command, p: Pair)
    requires c.ApplyRule?
    ensures PairAfter([c], p) == RulePair(c.rule, p)
  {
    assert [c][1..] == [];
    assert PairAfter([], RulePair(c.rule, p)) == RulePair(c.rule, p);
  }

  // first stage: ECDHE with ECDSA, ECDHE, and everything disabled again

  function KeyCommands(): seq<Command> {
    [ByKey(Add, KEX_ECDHE, AUTH_ECDSA), ByKey(Add, KEX_ECDHE, ALL_ONES), ByKey(Del, ALL_ONES, ALL_ONES)]
  }

  lemma KeysInOrder(cs: seq<Cipher>)
    requires AllProper(cs)
    ensures var p := PairAfter(KeyCommands(), ([], cs));
            p.0 == [] && AllProper(p.1) && Sorted(Key, p.1)
  {
    hide Selects, Hits, Picked, Others, Rank, KeyRank, PairAfter;
    var s1, s2 := ByKeySel(KEX_ECDHE, AUTH_ECDSA), ByKeySel(KEX_ECDHE, ALL_ONES);
    var c1, c2, c3 := KeyCommands()[0], KeyCommands()[1], KeyCommands()[2];
    var a, rest := Picked(s1, cs), Others(s1, cs);
    var b, last := Picked(s2, rest), Others(s2, rest);
    PickedAreSelected(s1, cs);
    OthersAreNotSelected(s1, cs);
    PickedAreSelected(s2, rest);
    OthersAreNotSelected(s2, rest);
    assert KeyCommands() == [c1] + ([c2] + [c3]);
    PairConcat([c1], [c2] + [c3], ([], cs));
    PairStep(c1, ([], cs));
    assert [] + a == a;
    PairConcat([c2], [c3], (a, rest));
    PairStep(c2, (a, rest));
    PairStep(c3, (a + b, last));
    AllByKey(a + b);
    KeyRanks(cs);
    AllAlike(Key, a, 0);
    AllAlike(Key, b, 1);
    AllAlike(Key, last, 2);
    BothAreSorted(Key, a, b);
    BothAreSorted(Key, a + b, last);
  }

  lemma KeyRanks(cs: seq<Cipher>)
    requires AllProper(cs)
    ensures forall c :: c in cs ==>
              var r := Rank(Key, c);
              && (Selects(ByKeySel(KEX_ECDHE, AUTH_ECDSA), c) <==> r == 0)
              && (Selects(ByKeySel(KEX_ECDHE, ALL_ONES), c) <==> r <= 1)
              && r <= 2
  {
    hide Selects, Hits;
    forall c | c in cs
      ensures var r := Rank(Key, c);
              && (Selects(ByKeySel(KEX_ECDHE, AUTH_ECDSA), c) <==> r == 0)
              && (Selects(ByKeySel(KEX_ECDHE, ALL_ONES), c) <==> r <= 1)
              && r <= 2
    {
      SelectsByKey(KEX_ECDHE, AUTH_ECDSA, c);
      SelectsByKey(KEX_ECDHE, ALL_ONES, c);
      AllHit(c.auth);
    }
  }

  lemma AllAlike(o: Order, cs: seq<Cipher>, r: nat)
    requires forall c :: c in cs ==> Rank(o, c) == r
    ensures Sorted(o, cs)
  {
    hide Rank;
    forall i, j | 0 <= i < j < |cs|
      ensures Rank(o, cs[i]) <= Rank(o, cs[j])
    {
      assert cs[i] in cs && cs[j] in cs;
    }
  }

  // second stage: the bulk ciphers in turn, and what is left

  function BulkOrder(hasAes: bool): (r: seq<bv32>)
    ensures |r| == 6
  {
    (if hasAes then [ENC_AES128GCM, ENC_AES256GCM, ENC_CHACHA20POLY1305]
     else [ENC_CHACHA20POLY1305, ENC_AES128GCM, ENC_AES256GCM]) + [ENC_AES128, ENC_AES256, ENC_3DES]
  }

  /** Of the ciphers not yet reached, those of the k-th bulk cipher have rank k. */
  lemma BulkRanks(hasAes: bool, k: nat, c: Cipher)
    requires k < 6 && BulkRank(hasAes, c) >= k
    ensures Hits(BulkOrder(hasAes)[k], c.enc) <==> BulkRank(hasAes, c) == k
  {
    hide Hits;
  }

  function BulkCommands(hasAes: bool, k: nat): (r: seq<Command>)
    requires k <= 6
    ensures forall c :: c in r ==> c.ApplyRule?
  {
    if k == 0 then [] else BulkCommands(hasAes, k - 1) + [ByBulk(BulkOrder(hasAes)[k - 1])]
  }

  lemma {:induction false} BulksInOrder(hasAes: bool, cs: seq<Cipher>, k: nat)
    requires k <= 6 && AllProper(cs) && Sorted(Key, cs)
    ensures var p := PairAfter(BulkCommands(hasAes, k), ([], cs));
            && Sorted(Bulk(hasAes), p.0) && Sorted(Key, p.1) && AllProper(p.0) && AllProper(p.1)
            && (forall c :: c in p.0 ==> BulkRank(hasAes, c) < k) && (forall c :: c in p.1 ==> BulkRank(hasAes, c) >= k)
    decreases k
  {
    hide Selects, Hits, Picked, Others, Rank, BulkRank, Proper;
    if k > 0 {
      BulksInOrder(hasAes, cs, k - 1);
      var front := BulkCommands(hasAes, k - 1);
      var last := ByBulk(BulkOrder(hasAes)[k - 1]);
      var (e, d) := PairAfter(front, ([], cs));
      PairConcat(front, [last], ([], cs));
      PairStep(last, (e, d));
      forall c | c in d
        ensures Hits(BulkOrder(hasAes)[k - 1], c.enc) <==> BulkRank(hasAes, c) == k - 1
      {
        BulkRanks(hasAes, k - 1, c);
      }
      NextBulk(hasAes, BulkOrder(hasAes)[k - 1], k - 1, e, d);
      PickedAreSelected(ByBulkSel(BulkOrder(hasAes)[k - 1]), d);
    }
  }

  // third stage: everything, those without forward secrecy last, and disabled again

  function LastCommands(): seq<Command> {
    [ByKey(Add, ALL_ONES, ALL_ONES), ByKey(Ord, KEX_RSA | KEX_PSK, ALL_ONES), ByKey(Del, ALL_ONES, ALL_ONES)]
  }

  lemma LastInOrder(hasAes: bool, e: seq<Cipher>, d: seq<Cipher>)
    requires AllProper(e) && AllProper(d) && Sorted(Bulk(hasAes), e) && Sorted(Key, d)
    requires (forall c :: c in e ==> BulkRank(hasAes, c) < 6) && (forall c :: c in d ==> BulkRank(hasAes, c) >= 6)
    ensures var p := PairAfter(LastCommands(), (e, d));
            p.0 == [] && Sorted(Full(hasAes), p.1)
  {
    hide Selects, Hits, Picked, Others, BulkRank, KeyRank, LegacyRank, PairAfter, Proper;
    var c1, c2, c3 := LastCommands()[0], LastCommands()[1], LastCommands()[2];
    var legacy := ByKeySel(KEX_RSA | KEX_PSK, ALL_ONES);
    assert LastCommands() == [c1] + ([c2] + [c3]);
    PairConcat([c1], [c2] + [c3], (e, d));
    PairStep(c1, (e, d));
    AllByKey(d);
    KeyIsSmall();
    BulkIsSmall(hasAes);
    SameOrder(Key, Bulk(hasAes), d);
    BothAreSorted(Bulk(hasAes), e, d);
    var all := e + d;
    PairConcat([c2], [c3], (all, []));
    PairStep(c2, (all, []));
    var a, b := Others(legacy, all), Picked(legacy, all);
    PairStep(c3, (a + b, []));
    LegacyLast(hasAes, all);
    AllByKey(a + b);
    assert a + b + [] == a + b;
  }

  lemma LegacyLast(hasAes: bool, all: seq<Cipher>)
    requires AllProper(all) && Sorted(Bulk(hasAes), all)
    ensures var legacy := ByKeySel(KEX_RSA | KEX_PSK, ALL_ONES);
            var cs := Others(legacy, all) + Picked(legacy, all);
            Sorted(Full(hasAes), cs) && AllProper(cs)
  {
    hide Selects, Hits, Picked, Others, BulkRank, KeyRank, LegacyRank, Proper;
    var legacy := ByKeySel(KEX_RSA | KEX_PSK, ALL_ONES);
    var a, b := Others(legacy, all), Picked(legacy, all);
    PickedIsSorted(Bulk(hasAes), legacy, all);
    PickedAreSelected(legacy, all);
    OthersAreNotSelected(legacy, all);
    LegacyRanks(all);
    SameOrder(Bulk(hasAes), Full(hasAes), a);
    SameOrder(Bulk(hasAes), Full(hasAes), b);
    KeyIsSmall();
    BulkIsSmall(hasAes);
    BothAreSorted(Full(hasAes), a, b);
  }

  lemma BulkIsSmall(hasAes: bool)
    ensures forall c :: BulkRank(hasAes, c) <= 6
  {
    hide Hits;
  }

  lemma LegacyRanks(cs: seq<Cipher>)
    requires AllProper(cs)
    ensures forall c :: c in cs ==> LegacyRank(c) == if Selects(ByKeySel(KEX_RSA | KEX_PSK, ALL_ONES), c) then 1 else 0
  {
    hide Selects, Hits;
    forall c | c in cs
      ensures LegacyRank(c) == if Selects(ByKeySel(KEX_RSA | KEX_PSK, ALL_ONES), c) then 1 else 0
    {
      SelectsByKey(KEX_RSA | KEX_PSK, ALL_ONES, c);
      AllHit(c.auth);
    }
  }

  lemma InitialStages(hasAes: bool)
    ensures InitialCommands(hasAes) == KeyCommands() + BulkCommands(hasAes, 6) + LastCommands()
  {
    hide BulkCommands;
    var order := BulkOrder(hasAes);
    BulkStep(hasAes, 0);
    BulkStep(hasAes, 1);
    BulkStep(hasAes, 2);
    BulkStep(hasAes, 3);
    BulkStep(hasAes, 4);
    BulkStep(hasAes, 5);
    assert BulkCommands(hasAes, 6) == [ByBulk(order[0]), ByBulk(order[1]), ByBulk(order[2]),
                                       ByBulk(order[3]), ByBulk(order[4]), ByBulk(order[5])] by {
      NoBulk(hasAes);
    }
  }

  lemma BulkStep(hasAes: bool, k: nat)
    requires k < 6
    ensures BulkCommands(hasAes, k + 1) == BulkCommands(hasAes, k) + [ByBulk(BulkOrder(hasAes)[k])]
  {}

  lemma NoBulk(hasAes: bool)
    ensures BulkCommands(hasAes, 0) == []
  {}

  /** The built-in rules leave every cipher disabled, in the order of preference: forward
      secrecy first, then by bulk cipher, then by key exchange. */
  lemma BuiltInOrder<T>(hasAes: bool, es: seq<Entry<T>>)
    requires Enabled(es) == [] && AllProper(Disabled(es))
    ensures var built := Run(InitialCommands(hasAes), es);
            Enabled(built) == [] && Sorted(Full(hasAes), Disabled(built))
  {
    hide Enabled, Disabled, PairAfter, Rank, BulkRank, InitialCommands, Proper, Run;
    var cs := Disabled(es);
    assert PairOf(es) == ([], cs);
    var first, second, third := KeyCommands(), BulkCommands(hasAes, 6), LastCommands();
    InitialStages(hasAes);
    InitialIsPlain(hasAes);
    RunPairs(InitialCommands(hasAes), es);
    PairConcat(first + second, third, ([], cs));
    PairConcat(first, second, ([], cs));
    KeysInOrder(cs);
    var d := PairAfter(first, ([], cs)).1;
    BulksInOrder(hasAes, d, 6);
    var p := PairAfter(second, ([], d));
    LastInOrder(hasAes, p.0, p.1);
    assert PairOf(Run(InitialCommands(hasAes), es)) == PairAfter(third, p);
  }

  /** So an item of the rules without an operator, the first one, enables the ciphers it
      selects in this order. */
  lemma FirstItemInOrder<T>(t: Tables, hasAes: bool, s: string, strict: bool, sel: Selector, e: nat, es: seq<Entry<T>>)
    requires Enabled(es) == [] && AllProper(Disabled(es))
    requires s != [] && IsAlnum(s[0]) && ItemAt(t, s, 0, strict, sel, e)
    ensures Comes(t, s, strict, 0, e)
    ensures Sorted(Full(hasAes), Enabled(ListAt(t, s, strict, 0, e, Run(InitialCommands(hasAes), es))))
  {
    hide Enabled, Disabled, Rank, Proper, Run, Picked, Others, ListAt, Comes, ItemAt;
    BuiltInOrder(hasAes, es);
    var built := Run(InitialCommands(hasAes), es);
    PlainMeans(t, s, strict, 0, sel, e, built);
    PickedIsSorted(Full(hasAes), sel, Disabled(built));
    assert [] + Picked(sel, Disabled(built)) == Picked(sel, Disabled(built));
  }

  // ----- strength and version ------------------------------------------------

  function StrengthClass(c: Cipher): nat {
    if c.enc == ENC_AES256 || c.enc == ENC_AES256GCM || c.enc == ENC_CHACHA20POLY1305 then 3
    else if c.enc == ENC_AES128 || c.enc == ENC_AES128GCM then 2
    else if c.enc == ENC_3DES then 1
    else 0
  }

  /** @STRENGTH puts AES-256 and ChaCha20 before AES-128, and these before triple DES. */
  lemma StrongComesFirst<T>(es: seq<Entry<T>>, i: nat, j: nat)
    requires |Inactive(es)| <= i < j < |StrengthSort(es)|
    ensures StrengthClass(StrengthSort(es)[i].cipher) >= StrengthClass(StrengthSort(es)[j].cipher)
  {
    hide StrengthSort, Inactive, StrengthBits, StrengthClass;
    StrengthSortIsStable(es, 0);
    var sorted, n := StrengthSort(es), |Inactive(es)|;
    assert sorted[n..][i - n] == sorted[i] && sorted[n..][j - n] == sorted[j];
    MoreBitsFirst(sorted[i].cipher, sorted[j].cipher);
  }

  lemma MoreBitsFirst(c: Cipher, d: Cipher)
    requires StrengthBits(c) >= StrengthBits(d)
    ensures StrengthClass(c) >= StrengthClass(d)
  {}

  /** Which ciphers may be chosen: those that the client's list has too, with a key exchange
      and an authentication in common, in the versions they are defined for. */
  lemma AcceptableExactly(a: Abilities, prio: seq<Cipher>, allow: seq<Cipher>, i: nat)
    requires i < |prio|
    ensures Acceptable(a, prio, allow, i) <==>
              prio[i] in allow && Shared(a, prio[i])
  {
    hide Compatible, Shared;
    FoundExactly(allow, prio[i]);
    if Compatible(a, prio[i]) { CompatibleMeans(a, prio[i]); }
    if Shared(a, prio[i]) { MeansCompatible(a, prio[i]); }
  }

  /** A key exchange and an authentication in common, and a version the cipher is for. */
  predicate Shared(a: Abilities, c: Cipher) {
    c.mkey & a.kex != 0 && c.auth & a.auth != 0 && IsDefined(a, c)
  }

  /** Ciphers of TLS 1.3 are for that version only, those with a hash of their own for TLS
      1.2 (RFC 5246, section 5), all others for any version before TLS 1.3. */
  predicate IsDefined(a: Abilities, c: Cipher) {
    if c.mkey == KEX_GENERIC || c.auth == AUTH_GENERIC then a.version == 0x0304
    else (if c.defaultPrf then 0x0300 else 0x0303) <= a.version <= 0x0303
  }

  lemma CompatibleMeans(a: Abilities, c: Cipher)
    requires Compatible(a, c)
    ensures Shared(a, c)
  {}

  lemma MeansCompatible(a: Abilities, c: Cipher)
    requires Shared(a, c)
    ensures Compatible(a, c)
  {}

  lemma FoundExactly(cs: seq<Cipher>, c: Cipher)
    ensures Find(cs, c) < |cs| <==> c in cs
  {}

  /** A cipher that is chosen is defined for the protocol version, and both sides have its
      key exchange, its authentication, and itself. */
  lemma ChosenIsDefined(a: Abilities, prio: seq<Cipher>, flags: seq<bool>, allow: seq<Cipher>, c: Cipher)
    requires |flags| == |prio| && IsChoice(a, prio, flags, allow, c)
    ensures c in prio && c in allow && Shared(a, c)
  {
    var i: nat :| i < |prio| && prio[i] == c && Best(a, prio, flags, allow, i);
    assert Acceptable(a, prio, allow, i);
  }
}
