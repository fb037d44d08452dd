/**
 Building a cipher preference list from a rule string: the built-in ordering,
 the optional DEFAULT prefix, and the rules.
 */
module CipherConfig {
  import opened CipherRules
  import opened CipherStrength
  import opened CipherScanner
  import opened CipherInvariants

  const KEX_RSA: bv32 := 0x1
  const KEX_ECDHE: bv32 := 0x4
  const KEX_PSK: bv32 := 0x8
  const AUTH_ECDSA: bv32 := 0x2
  const DEFAULT_CIPHER_LIST: string := "ALL"

  // ----- the built-in order --------------------------------------------------

  function ByKey(kind: Kind, mkey: bv32, auth: bv32): Command {
    ApplyRule(Rule(kind, Selector(0, mkey, auth, ALL_ONES, ALL_ONES, 0, -1), false))
  }

  function ByBulk(enc: bv32): Command {
    ApplyRule(Rule(Add, Selector(0, ALL_ONES, ALL_ONES, enc, ALL_ONES, 0, -1), false))
  }

  function AeadOrder(hasAes: bool): seq<Command> {
    if hasAes then [ByBulk(ENC_AES128GCM), ByBulk(ENC_AES256GCM), ByBulk(ENC_CHACHA20POLY1305)]
    else [ByBulk(ENC_CHACHA20POLY1305), ByBulk(ENC_AES128GCM), ByBulk(ENC_AES256GCM)]
  }

  /** Orders all ciphers by preference and leaves them disabled. */
  function InitialCommands(hasAes: bool): seq<Command> {
    [ByKey(Add, KEX_ECDHE, AUTH_ECDSA), ByKey(Add, KEX_ECDHE, ALL_ONES), ByKey(Del, ALL_ONES, ALL_ONES)]
    + AeadOrder(hasAes)
    + [ByBulk(ENC_AES128), ByBulk(ENC_AES256), ByBulk(ENC_3DES), ByKey(Add, ALL_ONES, ALL_ONES),
       ByKey(Ord, KEX_RSA | KEX_PSK, ALL_ONES), ByKey(Del, ALL_ONES, ALL_ONES)]
  }

  // ----- the whole configuration ---------------------------------------------

  predicate StartsWithDefault(s: string) {
    |s| >= 7 && s[..7] == "DEFAULT"
  }

  /** What is left of the rule string after a DEFAULT prefix. */
  function AfterDefault(s: string): string {
    if !StartsWithDefault(s) then s
    else if At(s, 7) == ':' then s[8..]
    else s[7..]
  }

  /** The commands a configuration string runs in all, and whether it is accepted. */
  function ConfigCommands(t: Tables, hasAes: bool, s: string, strict: bool): (seq<Command>, bool) {
    var default := if StartsWithDefault(s) then Scan(t, DEFAULT_CIPHER_LIST, 0, strict, false, false) else ([], true);
    var rules := Scan(t, AfterDefault(s), 0, strict, false, false);
    if !default.1 then (InitialCommands(hasAes) + default.0, false)
    else (InitialCommands(hasAes) + default.0 + rules.0, rules.1)
  }

  /** The result: the active ciphers in order, with their group flags. */
  function Preferences<T>(es: seq<Entry<T>>): seq<(Cipher, bool)> {
    if es == [] then []
    else (if es[0].active then [(es[0].cipher, es[0].inGroup)] else []) + Preferences(es[1..])
  }

  lemma PreferencesStep<T>(es: seq<Entry<T>>)
    requires es != []
    ensures Preferences(es) ==
            (if es[0].active then [(es[0].cipher, es[0].inGroup)] else []) + Preferences(es[1..])
  {}

  lemma NoPreferences<T>()
    ensures Preferences<T>([]) == []
  {}

  /** The list as collected: nothing active, nothing grouped. */
  ghost predicate Pristine<T>(es: seq<Entry<T>>) {
    NoneActive(es) && AllClosed(es)
  }

  lemma {:induction false} PlainCommandsKeepClosed<T>(cs: seq<Command>, es: seq<Entry<T>>)
    requires AllClosed(es)
    requires forall c :: c in cs ==> c.ApplyRule? && !c.rule.inGroup
    ensures AllClosed(Run(cs, es))
    decreases |cs|
  {
    hide Apply, AllClosed;
    if cs != [] {
      assert cs[0] in cs;
      ApplyKeepsClosed(cs[0].rule, es);
      PlainCommandsKeepClosed(cs[1..], RunOne(cs[0], es));
    }
  }

  lemma InitialIsPlain(hasAes: bool)
    ensures forall c :: c in InitialCommands(hasAes) ==> c.ApplyRule? && !c.rule.inGroup
  {}

  lemma DefaultHasNoBracket()
    ensures '[' !in DEFAULT_CIPHER_LIST
  {}

  lemma PristineIsSuffix<T>(es: seq<Entry<T>>)
    requires Pristine(es)
    ensures ActiveSuffix(es)
  {
    forall i | 0 <= i < |es|
      ensures !es[i].active
    {
      assert es[i] in es;
    }
  }

  lemma ConfigCloses<T>(t: Tables, hasAes: bool, s: string, strict: bool, es: seq<Entry<T>>)
    requires Pristine(es) && ConfigCommands(t, hasAes, s, strict).1
    ensures LastClosed(Run(ConfigCommands(t, hasAes, s, strict).0, es))
  {
    hide InitialCommands, Scan, Run, AllClosed, LastClosed, NoneActive;
    var first := InitialCommands(hasAes);
    InitialIsPlain(hasAes);
    PlainCommandsKeepClosed(first, es);
    var ordered := Run(first, es);
    var default := if StartsWithDefault(s) then Scan(t, DEFAULT_CIPHER_LIST, 0, strict, false, false).0 else [];
    DefaultHasNoBracket();
    NoBracketNoGroup(t, DEFAULT_CIPHER_LIST, 0, strict, ordered);
    RunNothing(ordered);
    var enabled := Run(default, ordered);
    ScanKeepsGroups(t, AfterDefault(s), 0, strict, false, false, enabled);
    RunConcat(first, default, es);
    RunConcat(first + default, Scan(t, AfterDefault(s), 0, strict, false, false).0, es);
  }

  lemma {:induction false} LastPreference<T>(es: seq<Entry<T>>)
    requires ActiveSuffix(es) && LastClosed(es)
    ensures Preferences(es) != [] ==> !Preferences(es)[|Preferences(es)| - 1].1
    ensures es != [] && es[|es| - 1].active ==> Preferences(es) != []
    ensures es != [] && !es[|es| - 1].active ==> Preferences(es) == []
    decreases |es|
  {
    if es != [] {
      LastPreference(es[1..]);
    }
  }

  function PreferredCiphers(ps: seq<(Cipher, bool)>): multiset<Cipher>
    decreases |ps|
  {
    if ps == [] then multiset{} else multiset{ps[0].0} + PreferredCiphers(ps[1..])
  }

  lemma {:induction false} PreferencesAreCiphers<T>(es: seq<Entry<T>>)
    ensures PreferredCiphers(Preferences(es)) <= Ciphers(es)
    decreases |es|
  {
    hide Ciphers, PreferredCiphers;
    if es == [] {
      NothingPreferred();
    } else {
      PreferencesAreCiphers(es[1..]);
      CiphersCons(es);
      if es[0].active {
        PreferredCons((es[0].cipher, es[0].inGroup), Preferences(es[1..]));
      } else {
        assert Preferences(es) == Preferences(es[1..]);
      }
    }
  }

  lemma NothingPreferred()
    ensures PreferredCiphers([]) == multiset{}
  {}

  lemma PreferredCons(p: (Cipher, bool), ps: seq<(Cipher, bool)>)
    ensures PreferredCiphers([p] + ps) == multiset{p.0} + PreferredCiphers(ps)
  {}

  /** An accepted configuration: the active ciphers are the end of the list, the
      last preference group is closed, and no cipher is invented or repeated. */
  lemma AcceptedConfigIsSound<T>(t: Tables, hasAes: bool, s: string, strict: bool, es: seq<Entry<T>>)
    requires Pristine(es) && ConfigCommands(t, hasAes, s, strict).1
    ensures var result := Run(ConfigCommands(t, hasAes, s, strict).0, es);
            var prefs := Preferences(result);
            && ActiveSuffix(result)
            && (prefs != [] ==> !prefs[|prefs| - 1].1)
            && PreferredCiphers(prefs) <= Ciphers(es)
  {
    hide ConfigCommands, Run, LastClosed, ActiveSuffix, Preferences, PreferredCiphers, Ciphers, Pristine;
    var cs := ConfigCommands(t, hasAes, s, strict).0;
    PristineIsSuffix(es);
    RunKeepsSuffix(cs, es);
    ConfigCloses(t, hasAes, s, strict, es);
    LastPreference(Run(cs, es));
    RunCiphers(cs, es);
    PreferencesAreCiphers(Run(cs, es));
  }
}
