/**
 What a rule string means: what each operator does to the preferences and to the disabled
 ciphers, that a banned cipher never comes back, and which ciphers an item selects.
 */
module CipherMeaning {
  import opened Common
  import opened CipherRules
  import opened CipherStrength
  import opened CipherScanner
  import opened CipherInvariants
  import opened CipherConfig

  // ----- preferences and disabled ciphers ------------------------------------

  /** The disabled ciphers, in list order. */
  function Disabled<T>(es: seq<Entry<T>>): seq<Cipher> {
    if es == [] then [] else (if es[0].active then [] else [es[0].cipher]) + Disabled(es[1..])
  }

  function Picked(sel: Selector, cs: seq<Cipher>): seq<Cipher> {
    if cs == [] then [] else (if Selects(sel, cs[0]) then [cs[0]] else []) + Picked(sel, cs[1..])
  }

  function Others(sel: Selector, cs: seq<Cipher>): seq<Cipher> {
    if cs == [] then [] else (if Selects(sel, cs[0]) then [] else [cs[0]]) + Others(sel, cs[1..])
  }

  /** The enabled ciphers, in order of preference. */
  function Enabled<T>(es: seq<Entry<T>>): seq<Cipher> {
    if es == [] then [] else (if es[0].active then [es[0].cipher] else []) + Enabled(es[1..])
  }

  lemma {:induction false} EnabledConcat<T>(a: seq<Entry<T>>, b: seq<Entry<T>>)
    ensures Enabled(a + b) == Enabled(a) + Enabled(b) && Disabled(a + b) == Disabled(a) + Disabled(b)
    decreases |a|
  {
    hide Enabled, Disabled;
    if a == [] {
      assert a + b == b;
      NoneEnabled<T>();
    } else {
      assert (a + b)[1..] == a[1..] + b;
      EnabledStep(a);
      EnabledStep(a + b);
      EnabledConcat(a[1..], b);
    }
  }

  lemma EnabledStep<T>(es: seq<Entry<T>>)
    requires es != []
    ensures Enabled(es) == (if es[0].active then [es[0].cipher] else []) + Enabled(es[1..])
    ensures Disabled(es) == (if es[0].active then [] else [es[0].cipher]) + Disabled(es[1..])
  {}

  lemma {:induction false} EnabledArePreferred<T>(es: seq<Entry<T>>)
    ensures |Preferences(es)| == |Enabled(es)|
    ensures forall i :: 0 <= i < |Enabled(es)| ==> Preferences(es)[i].0 == Enabled(es)[i]
    decreases |es|
  {
    if es != [] {
      EnabledArePreferred(es[1..]);
    }
  }

  /** What a rule of each kind leaves in place and what it takes out. */
  lemma {:induction false} KeptAndMoved<T>(r: Rule, es: seq<Entry<T>>)
    ensures Enabled(Kept(r, es)) == if r.kind.Add? then Enabled(es) else Others(r.sel, Enabled(es))
    ensures Disabled(Kept(r, es)) == if r.kind.Add? || r.kind.Kill? then Others(r.sel, Disabled(es)) else Disabled(es)
    ensures r.kind.Add? ==> Enabled(Moved(r, es)) == Picked(r.sel, Disabled(es)) && Disabled(Moved(r, es)) == []
    ensures r.kind.Ord? ==> Enabled(Moved(r, es)) == Picked(r.sel, Enabled(es)) && Disabled(Moved(r, es)) == []
    ensures r.kind.Del? ==> Disabled(Moved(r, es)) == Picked(r.sel, Enabled(es)) && Enabled(Moved(r, es)) == []
    decreases |es|
  {
    hide Selects, Enabled, Disabled, Picked, Others, Kept, Moved;
    if es == [] {
      NothingKept(r, es);
    } else {
      var e, rest := es[0], es[1..];
      KeptAndMoved(r, rest);
      KeptStep(r, es);
      assert es == [e] + rest;
      EnabledConcat([e], rest);
      EnabledConcat(if Moves(r, e) then [] else [e], Kept(r, rest));
      EnabledConcat(if Moves(r, e) then [Touch(r, e)] else [], Moved(r, rest));
      EnabledOne(e);
      EnabledOne(Touch(r, e));
      NoneEnabled<T>();
      PickedOne(r.sel, e.cipher, Enabled(rest));
      PickedOne(r.sel, e.cipher, Disabled(rest));
      assert [] + Enabled(rest) == Enabled(rest) && [] + Disabled(rest) == Disabled(rest);
      assert forall x: seq<Cipher> :: [] + x == x;
    }
  }

  lemma NothingKept<T>(r: Rule, es: seq<Entry<T>>)
    requires es == []
    ensures Kept(r, es) == [] && Moved(r, es) == [] && Enabled(es) == [] && Disabled(es) == []
    ensures Picked(r.sel, []) == [] && Others(r.sel, []) == []
  {}

  lemma NoneEnabled<T>()
    ensures Enabled<T>([]) == [] && Disabled<T>([]) == []
  {}

  lemma EnabledOne<T>(e: Entry<T>)
    ensures Enabled([e]) == (if e.active then [e.cipher] else []) && Disabled([e])
        == (if e.active then [] else [e.cipher])
  {
    assert [e][1..] == [];
  }

  lemma PickedOne(sel: Selector, c: Cipher, cs: seq<Cipher>)
    ensures Picked(sel, [c] + cs) == (if Selects(sel, c) then [c] else []) + Picked(sel, cs)
    ensures Others(sel, [c] + cs) == (if Selects(sel, c) then [] else [c]) + Others(sel, cs)
  {
    assert ([c] + cs)[1..] == cs;
  }

  lemma KeptStep<T>(r: Rule, es: seq<Entry<T>>)
    requires es != []
    ensures Kept(r, es) == (if Moves(r, es[0]) then [] else [es[0]]) + Kept(r, es[1..])
    ensures Moved(r, es) == (if Moves(r, es[0]) then [Touch(r, es[0])] else []) + Moved(r, es[1..])
  {}

  lemma ApplyMeans<T>(r: Rule, es: seq<Entry<T>>)
    ensures var next := Apply(r, es);
            (Enabled(next), Disabled(next))
            == match r.kind
               case Add => (Enabled(es) + Picked(r.sel, Disabled(es)), Others(r.sel, Disabled(es)))
               case Ord => (Others(r.sel, Enabled(es)) + Picked(r.sel, Enabled(es)), Disabled(es))
               case Del => (Others(r.sel, Enabled(es)), Picked(r.sel, Enabled(es)) + Disabled(es))
               case Kill => (Others(r.sel, Enabled(es)), Others(r.sel, Disabled(es)))
  {
    hide Kept, Moved, Enabled, Disabled, Picked, Others;
    KeptAndMoved(r, es);
    EnabledConcat(Kept(r, es), Moved(r, es));
    EnabledConcat(Moved(r, es), Kept(r, es));
    assert Disabled(Kept(r, es)) + [] == Disabled(Kept(r, es));
    assert [] + Enabled(Kept(r, es)) == Enabled(Kept(r, es));
  }

  // ----- operators in a string -----------------------------------------------

  /** Outside all brackets, the scan comes from position l to position k. */
  predicate Comes(t: Tables, s: string, strict: bool, l: nat, k: nat)
    requires l <= |s|
    decreases |s| - l
  {
    l == k ||
    match ScanStep(t, s, l, strict, false, false)
    case Continue(pos, inGroup, hasGroup, commands) => !hasGroup && !inGroup && Comes(t, s, strict, pos, k)
    case _ => false
  }

  /** The list when the scan that began at l with es comes to k. */
  function ListAt<T>(t: Tables, s: string, strict: bool, l: nat, k: nat, es: seq<Entry<T>>): seq<Entry<T>>
    requires l <= |s| && Comes(t, s, strict, l, k)
    decreases |s| - l
  {
    if l == k then es
    else
      var step := ScanStep(t, s, l, strict, false, false);
      ListAt(t, s, strict, step.pos, k, Run(step.commands, es))
  }

  /** An item at this position selects by `sel`, and ends at e. */
  predicate ItemAt(t: Tables, s: string, l: nat, strict: bool, sel: Selector, e: nat)
    requires l <= |s|
  {
    var r := ReadItem(t, s, l, FRESH_ITEM, strict);
    r.GoodItem? && !r.item.skip && SelectorOf(r.item) == sel && r.pos == e
  }

  /** What the operators do to the enabled and to the disabled ciphers: '-' disables, and
      keeps the ciphers at the front of the disabled ones; '+' puts enabled ciphers last;
      '!' removes. */
  lemma OperatorMeans<T>(t: Tables, s: string, strict: bool, k: nat, sel: Selector, e: nat, es: seq<Entry<T>>)
    requires k < |s| && (s[k] == '!' || s[k] == '-' || s[k] == '+') && ItemAt(t, s, k + 1, strict, sel, e)
    ensures Comes(t, s, strict, k, e) && k < e <= |s|
    ensures var next := ListAt(t, s, strict, k, e, es);
            (Enabled(next), Disabled(next))
            == if s[k] == '-' then (Others(sel, Enabled(es)), Picked(sel, Enabled(es)) + Disabled(es))
               else if s[k] == '+' then (Others(sel, Enabled(es)) + Picked(sel, Enabled(es)), Disabled(es))
               else (Others(sel, Enabled(es)), Others(sel, Disabled(es)))
  {
    hide ReadItem, Apply, Enabled, Disabled, Picked, Others, Run;
    var step := ScanStep(t, s, k, strict, false, false);
    var r := step.commands[0].rule;
    RunSingle(step.commands[0], es);
    ApplyMeans(r, es);
    assert Comes(t, s, strict, e, e);
    assert ListAt(t, s, strict, e, e, Run(step.commands, es)) == Run(step.commands, es);
  }

  /** An item without an operator enables, at the end and in list order, the disabled
      ciphers it selects. */
  lemma PlainMeans<T>(t: Tables, s: string, strict: bool, k: nat, sel: Selector, e: nat, es: seq<Entry<T>>)
    requires k < |s| && IsAlnum(s[k]) && ItemAt(t, s, k, strict, sel, e)
    ensures Comes(t, s, strict, k, e) && k < e <= |s|
    ensures var next := ListAt(t, s, strict, k, e, es);
            && Enabled(next) == Enabled(es) + Picked(sel, Disabled(es))
            && Disabled(next) == Others(sel, Disabled(es))
  {
    hide ReadItem, Apply, Enabled, Disabled, Picked, Others, Run;
    var step := ScanStep(t, s, k, strict, false, false);
    RunSingle(step.commands[0], es);
    ApplyMeans(step.commands[0].rule, es);
    assert Comes(t, s, strict, e, e);
    assert ListAt(t, s, strict, e, e, Run(step.commands, es)) == Run(step.commands, es);
  }

  /** The special rule @STRENGTH sorts by strength; what is left up to the next separator
      is passed over. */
  lemma StrengthMeans<T>(t: Tables, s: string, strict: bool, k: nat, es: seq<Entry<T>>)
    requires k < |s| && s[k] == '@' && s[k + 1..WordEnd(s, k + 1)] == "STRENGTH"
    ensures var e := SkipItem(s, WordEnd(s, k + 1));
            Comes(t, s, strict, k, e) && ListAt(t, s, strict, k, e, es) == StrengthSort(es)
  {
    hide ReadItem, StrengthSort, Run;
    var step := ScanStep(t, s, k, strict, false, false);
    RunSingle(SortByStrength, es);
    assert Comes(t, s, strict, step.pos, step.pos);
    assert ListAt(t, s, strict, step.pos, step.pos, Run(step.commands, es)) == Run(step.commands, es);
  }

  // ----- a banned cipher stays out -------------------------------------------

  lemma {:induction false} ScanGoesOn<T>(t: Tables, s: string, strict: bool, l: nat, k: nat, es: seq<Entry<T>>)
    requires l <= |s| && Comes(t, s, strict, l, k)
    ensures k <= |s|
    ensures Scan(t, s, l, strict, false, false).1 == Scan(t, s, k, strict, false, false).1
    ensures Run(Scan(t, s, l, strict, false, false).0, es)
         == Run(Scan(t, s, k, strict, false, false).0, ListAt(t, s, strict, l, k, es))
    decreases |s| - l
  {
    hide ScanStep, Run;
    if l != k {
      var step := ScanStep(t, s, l, strict, false, false);
      ScanGoesOn(t, s, strict, step.pos, k, Run(step.commands, es));
      RunConcat(step.commands, Scan(t, s, step.pos, strict, false, false).0, es);
    }
  }

  /** Somewhere outside brackets the string has a '!' before an item that selects c. */
  ghost predicate Banned(t: Tables, s: string, strict: bool, c: Cipher) {
    exists k: nat :: BannedAt(t, s, strict, k, c)
  }

  predicate BannedAt(t: Tables, s: string, strict: bool, k: nat, c: Cipher) {
    && k < |s| && Comes(t, s, strict, 0, k) && s[k] == '!'
    && var r := ReadItem(t, s, k + 1, FRESH_ITEM, strict);
       r.GoodItem? && !r.item.skip && Selects(SelectorOf(r.item), c)
  }

  lemma IsItem(t: Tables, s: string, l: nat, strict: bool)
    requires l <= |s|
    ensures var r := ReadItem(t, s, l, FRESH_ITEM, strict);
            r.GoodItem? && !r.item.skip ==> ItemAt(t, s, l, strict, SelectorOf(r.item), r.pos)
  {}

  lemma {:induction false} ListHas<T>(es: seq<Entry<T>>, c: Cipher)
    ensures c in Ciphers(es) <==> c in Enabled(es) || c in Disabled(es)
    decreases |es|
  {
    if es != [] {
      ListHas(es[1..], c);
    }
  }

  lemma {:induction false} OthersAreNotSelected(sel: Selector, cs: seq<Cipher>)
    ensures forall c :: c in Others(sel, cs) <==> c in cs && !Selects(sel, c)
    decreases |cs|
  {
    hide Selects;
    if cs != [] {
      OthersAreNotSelected(sel, cs[1..]);
    }
  }

  lemma {:induction false} PickedAreSelected(sel: Selector, cs: seq<Cipher>)
    ensures forall c :: c in Picked(sel, cs) <==> c in cs && Selects(sel, c)
    decreases |cs|
  {
    hide Selects;
    if cs != [] {
      PickedAreSelected(sel, cs[1..]);
    }
  }

  /** A banned cipher is not in the result, whatever stands before and after. */
  lemma BannedStaysOut<T>(t: Tables, s: string, strict: bool, es: seq<Entry<T>>, c: Cipher)
    requires Banned(t, s, strict, c)
    ensures c !in Ciphers(Run(Scan(t, s, 0, strict, false, false).0, es))
  {
    hide Scan, ScanStep, Run, Ciphers, Selects, Enabled, Disabled, ListAt, Others, Picked, ItemAt, Comes;
    var k: nat :| BannedAt(t, s, strict, k, c);
    var r := ReadItem(t, s, k + 1, FRESH_ITEM, strict);
    var sel, e := SelectorOf(r.item), r.pos;
    IsItem(t, s, k + 1, strict);
    ScanGoesOn(t, s, strict, 0, k, es);
    var before := ListAt(t, s, strict, 0, k, es);
    OperatorMeans(t, s, strict, k, sel, e, before);
    ScanGoesOn(t, s, strict, k, e, before);
    var after := ListAt(t, s, strict, k, e, before);
    OthersAreNotSelected(sel, Enabled(before));
    OthersAreNotSelected(sel, Disabled(before));
    ListHas(after, c);
    RunCiphers(Scan(t, s, e, strict, false, false).0, after);
  }

  /** Nor among the preferences of a configuration whose rules ban it. */
  lemma BannedIsNotPreferred<T>(t: Tables, hasAes: bool, s: string, strict: bool, es: seq<Entry<T>>, c: Cipher)
    requires Banned(t, AfterDefault(s), strict, c) && ConfigCommands(t, hasAes, s, strict).1
    ensures forall p :: p in Preferences(Run(ConfigCommands(t, hasAes, s, strict).0, es)) ==> p.0 != c
  {
    hide Scan, Run, Ciphers, Enabled, Disabled, Preferences, Banned, InitialCommands;
    var default := if StartsWithDefault(s) then Scan(t, DEFAULT_CIPHER_LIST, 0, strict, false, false).0 else [];
    var rules := Scan(t, AfterDefault(s), 0, strict, false, false).0;
    var before := Run(InitialCommands(hasAes) + default, es);
    RunConcat(InitialCommands(hasAes) + default, rules, es);
    BannedStaysOut(t, AfterDefault(s), strict, before, c);
    var result := Run(rules, before);
    ListHas(result, c);
    EnabledArePreferred(result);
    forall p | p in Preferences(result)
      ensures p.0 != c
    {
      var i :| 0 <= i < |Preferences(result)| && Preferences(result)[i] == p;
      assert Enabled(result)[i] in Enabled(result);
    }
  }

  /** A cipher that '-' disables is still in the list, and an item behind it that selects
      it enables it again. */
  lemma DashThenItem<T>(t: Tables, s: string, strict: bool, k: nat, sel: Selector, e: nat, k2: nat, sel2: Selector,
                        e2: nat, es: seq<Entry<T>>, c: Cipher)
    requires k < |s| && s[k] == '-' && ItemAt(t, s, k + 1, strict, sel, e)
    requires e <= k2 < |s| && (forall i :: e <= i < k2 ==> IsSeparator(s[i]))
    requires IsAlnum(s[k2]) && ItemAt(t, s, k2, strict, sel2, e2)
    requires c in Enabled(es) && Selects(sel, c) && Selects(sel2, c)
    ensures Comes(t, s, strict, k, e) && Comes(t, s, strict, e, k2) && Comes(t, s, strict, k2, e2)
    ensures var disabled := ListAt(t, s, strict, k, e, es);
            var enabled := ListAt(t, s, strict, k2, e2, ListAt(t, s, strict, e, k2, disabled));
            c !in Enabled(disabled) && c in Enabled(enabled)
  {
    hide Selects, Enabled, Disabled, ListAt, Others, Picked, ItemAt, Comes;
    OperatorMeans(t, s, strict, k, sel, e, es);
    var disabled := ListAt(t, s, strict, k, e, es);
    OthersAreNotSelected(sel, Enabled(es));
    PickedAreSelected(sel, Enabled(es));
    SeparatorsPass(t, s, strict, e, k2, disabled);
    PlainMeans(t, s, strict, k2, sel2, e2, disabled);
    PickedAreSelected(sel2, Disabled(disabled));
  }

  lemma {:induction false} SeparatorsPass<T>(t: Tables, s: string, strict: bool, l: nat, k: nat, es: seq<Entry<T>>)
    requires l <= k <= |s| && forall i :: l <= i < k ==> IsSeparator(s[i])
    ensures Comes(t, s, strict, l, k) && ListAt(t, s, strict, l, k, es) == es
    decreases k - l
  {
    hide ReadItem;
    if l < k {
      SeparatorsPass(t, s, strict, l + 1, k, es);
      RunNothing(es);
    }
  }
}
