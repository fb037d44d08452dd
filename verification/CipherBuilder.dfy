/**
 The rule interpreter as the C code runs it: one pass over the string that
 rearranges the linked list as it goes.
 */
module CipherBuilder {
  import opened Common
  import opened CipherRules
  import opened CipherStrength
  import opened CipherScanner
  import opened CipherInvariants
  import opened CipherConfig
  import opened CipherMeaning
  import opened CipherList

  // ----- reading one word ----------------------------------------------------

  method ReadWordEnd(s: string, l: nat) returns (e: nat)
    requires l <= |s|
    ensures e == WordEnd(s, l)
  {
    e := l;
    while IsWordChar(At(s, e))
      invariant l <= e <= |s| && WordEnd(s, e) == WordEnd(s, l)
      decreases |s| - e
    {
      e := e + 1;
    }
  }

  method FindCipherId(cs: seq<Cipher>, name: string) returns (id: nat)
    ensures id == CipherId(cs, name)
  {
    var j := 0;
    while j < |cs|
      invariant j <= |cs| && CipherId(cs[j..], name) == CipherId(cs, name)
    {
      if cs[j].name == name {
        return cs[j].id;
      }
      assert cs[j..][1..] == cs[j + 1..];
      j := j + 1;
    }
    id := 0;
  }

  method FindAlias(als: seq<Alias>, name: string) returns (j: nat)
    ensures j == AliasIndex(als, name)
  {
    j := 0;
    while j < |als|
      invariant j <= |als| && j + AliasIndex(als[j..], name) == AliasIndex(als, name)
    {
      if als[j].name == name {
        return;
      }
      assert als[j..][1..] == als[j + 1..];
      j := j + 1;
    }
  }

  /** The inner loop: words joined by '+', narrowing the selector. */
  method ReadSelector(t: Tables, s: string, start: nat, strict: bool) returns (r: ItemResult)
    requires start <= |s|
    ensures r == ReadItem(t, s, start, FRESH_ITEM, strict)
  {
    hide CipherId, AliasIndex, Narrow, WordEnd;
    var l := start;
    var it := FRESH_ITEM;
    while true
      invariant l <= |s|
      invariant ReadItem(t, s, l, it, strict) == ReadItem(t, s, start, FRESH_ITEM, strict)
      decreases |s| - l
    {
      var e := ReadWordEnd(s, l);
      if e == l {
        return BadItem;
      }
      var ch := At(s, e);
      if !it.multi && ch != '+' {
        var found := FindCipherId(t.ciphers, s[l..e]);
        if found != 0 {
          it := it.(id := found);
        }
      }
      if it.id == 0 {
        var j := FindAlias(t.aliases, s[l..e]);
        if j < |t.aliases| {
          it := Narrow(it, t.aliases[j]);
        } else {
          it := it.(skip := true);
          if strict {
            return BadItem;
          }
        }
      }
      if ch != '+' {
        return GoodItem(it, e);
      }
      l := e + 1;
      it := it.(multi := true);
    }
  }

  // ----- the rule string -----------------------------------------------------

  /** One turn of the loop over the string; `more` is false when it ends or fails. */
  method TakeTurn(list: List, t: Tables, s: string, l: nat, strict: bool, inGroup: bool, hasGroup: bool)
    returns (more: bool, ok: bool, l': nat, inGroup': bool, hasGroup': bool)
    requires list.Ok() && l <= |s|
    modifies list, list.nodes
    ensures list.Ok()
    ensures forall j :: 0 <= j < |list.nodes| ==> list.nodes[j] in old(list.nodes)
    ensures match ScanStep(t, s, l, strict, inGroup, hasGroup)
            case Finished => !more && ok == !inGroup && list.entries == old(list.entries)
            case Bad => !more && !ok && list.entries == old(list.entries)
            case Continue(pos, ig, hg, commands) =>
              more && (l', inGroup', hasGroup') == (pos, ig, hg) && list.entries == Run(commands, old(list.entries))
  {
    hide List.Ok, Run, ScanRule, Close;
    more, ok, l', inGroup', hasGroup' := false, false, l, inGroup, hasGroup;
    RunNothing(list.entries);
    var ch := At(s, l);
    if ch == '\0' {
      ok := !inGroup;
      return;
    }
    var op := Plain(Add);
    if inGroup {
      if ch == ']' {
        RunSingle(CloseGroup, list.entries);
        CloseOfList(list.entries);
        list.CloseTail();
        return true, true, l + 1, false, hasGroup;
      }
      if ch == '|' {
        return true, true, l + 1, inGroup, hasGroup;
      } else if !IsAlnum(ch) {
        return;
      }
    } else if ch == '-' {
      op, l' := Plain(Del), l + 1;
    } else if ch == '+' {
      op, l' := Plain(Ord), l + 1;
    } else if ch == '!' {
      op, l' := Plain(Kill), l + 1;
    } else if ch == '@' {
      op, l' := Special, l + 1;
    } else if ch == '[' {
      return true, true, l + 1, true, true;
    }
    if hasGroup && op != Plain(Add) {
      return;
    }
    if IsSeparator(ch) {
      return true, true, l + 1, inGroup, hasGroup;
    }
    ok, l' := RunRule(list, t, s, l', strict, op, inGroup, hasGroup);
    more := ok;
  }

  lemma CloseOfList<T>(es: seq<Entry<T>>)
    ensures RunOne(CloseGroup, es) == if es == [] then [] else es[|es| - 1 := es[|es| - 1].(inGroup := false)]
  {}

  /** Applies a rule string to the list; on an error the rules before it stand. */
  method ProcessRuleString(list: List, t: Tables, s: string, strict: bool) returns (ok: bool)
    requires list.Ok()
    modifies list, list.nodes
    ensures list.Ok()
    ensures forall j :: 0 <= j < |list.nodes| ==> list.nodes[j] in old(list.nodes)
    ensures ok == Scan(t, s, 0, strict, false, false).1
    ensures list.entries == Run(Scan(t, s, 0, strict, false, false).0, old(list.entries))
  {
    hide List.Ok, ScanStep, Run;
    var l: nat, inGroup, hasGroup := 0, false, false;
    ghost var orig := list.entries;
    ghost var goal := Scan(t, s, 0, strict, false, false);
    ghost var done: seq<Command> := [];
    RunNothing(orig);
    assert [] + goal.0 == goal.0;
    while true
      invariant list.Ok() && l <= |s|
      invariant forall j :: 0 <= j < |list.nodes| ==> list.nodes[j] in old(list.nodes)
      invariant list.entries == Run(done, orig)
      invariant goal == Behind(done, Scan(t, s, l, strict, inGroup, hasGroup))
      decreases |s| - l
    {
      ghost var step := ScanStep(t, s, l, strict, inGroup, hasGroup);
      EndOfScan(done);
      if step.Continue? {
        StepOfScan(t, s, l, strict, inGroup, hasGroup, done);
        RunConcat(done, step.commands, orig);
        done := done + step.commands;
      }
      var more;
      more, ok, l, inGroup, hasGroup := TakeTurn(list, t, s, l, strict, inGroup, hasGroup);
      if !more {
        return;
      }
    }
  }

  /** Reads one rule, after its operator, and applies it. */
  method RunRule(list: List, t: Tables, s: string, l: nat, strict: bool, op: Operator, inGroup: bool,
                 ghost hasGroup: bool)
    returns (ok: bool, e: nat)
    requires list.Ok() && l <= |s|
    modifies list, list.nodes
    ensures list.Ok()
    ensures forall j :: 0 <= j < |list.nodes| ==> list.nodes[j] in old(list.nodes)
    ensures var step := ScanRule(t, s, l, strict, op, inGroup, hasGroup);
            && (ok <==> step.Continue?)
            && (ok ==> step.pos == e && list.entries == Run(step.commands, old(list.entries)))
            && (!ok ==> list.entries == old(list.entries))
  {
    hide List.Ok, Apply, StrengthSort, ReadItem, Run, WordEnd, SkipItem, SelectorOf;
    RunNothing(list.entries);
    if op.Special? {
      e := ReadWordEnd(s, l);
      if s[l..e] != "STRENGTH" {
        return false, e;
      }
      RunSingle(SortByStrength, list.entries);
      list.SortByStrength();
      e := ReadItemEnd(s, e);
      return true, e;
    }
    var r := ReadSelector(t, s, l, strict);
    if r.BadItem? {
      return false, l;
    }
    e := r.pos;
    if !r.item.skip {
      var rule := Rule(op.kind, SelectorOf(r.item), inGroup);
      RunSingle(ApplyRule(rule), list.entries);
      list.ApplyRule(rule);
    }
    ok := true;
  }

  method ReadItemEnd(s: string, l: nat) returns (e: nat)
    requires l <= |s|
    ensures e == SkipItem(s, l)
  {
    e := l;
    while At(s, e) != '\0' && !IsSeparator(At(s, e))
      invariant l <= e <= |s| && SkipItem(s, e) == SkipItem(s, l)
      decreases |s| - e
    {
      e := e + 1;
    }
  }

  /** A scan with the commands already run put in front. */
  ghost function Behind(done: seq<Command>, r: (seq<Command>, bool)): (seq<Command>, bool) {
    (done + r.0, r.1)
  }

  lemma EndOfScan(done: seq<Command>)
    ensures forall ok :: Behind(done, ([], ok)) == (done, ok)
  {
    assert done + [] == done;
  }

  lemma StepOfScan(t: Tables, s: string, l: nat, strict: bool, inGroup: bool, hasGroup: bool, done: seq<Command>)
    requires l <= |s| && ScanStep(t, s, l, strict, inGroup, hasGroup).Continue?
    ensures var step := ScanStep(t, s, l, strict, inGroup, hasGroup);
            Behind(done, Scan(t, s, l, strict, inGroup, hasGroup)) ==
            Behind(done + step.commands, Scan(t, s, step.pos, strict, step.inGroup, step.hasGroup))
  {
    hide ScanStep;
    var step := ScanStep(t, s, l, strict, inGroup, hasGroup);
    var more := Scan(t, s, step.pos, strict, step.inGroup, step.hasGroup).0;
    assert done + (step.commands + more) == (done + step.commands) + more;
  }

  // ----- the whole configuration ---------------------------------------------

  /** The ciphers a protocol method supports, but those of TLS 1.3. */
  function Offered(ciphers: seq<Cipher>, supports: Cipher -> bool): seq<Cipher> {
    if ciphers == [] then []
    else
      var c := ciphers[|ciphers| - 1];
      Offered(ciphers[..|ciphers| - 1], supports) + if supports(c) && c.mkey != KEX_GENERIC then [c] else []
  }

  /** Fresh entries for these ciphers, in order, all disabled and ungrouped. */
  ghost predicate Collected(es: seq<Entry<Node>>, ciphers: seq<Cipher>) {
    && |es| == |ciphers|
    && forall i :: 0 <= i < |ciphers| ==> es[i].cipher == ciphers[i] && !es[i].active && !es[i].inGroup
  }

  /** Links entries for the ciphers offered into a fresh list. */
  method CollectCiphers(ciphers: seq<Cipher>, supports: Cipher -> bool) returns (list: List)
    ensures fresh(list) && (forall j :: 0 <= j < |list.nodes| ==> fresh(list.nodes[j]))
    ensures list.Ok() && Collected(list.entries, Offered(ciphers, supports))
  {
    hide List.Valid, Holding;
    list := new List.Empty();
    for i := 0 to |ciphers|
      invariant fresh(list) && (forall j :: 0 <= j < |list.nodes| ==> fresh(list.nodes[j]))
      invariant list.Ok() && Collected(list.entries, Offered(ciphers[..i], supports))
    {
      assert ciphers[..i + 1][..i] == ciphers[..i];
      if supports(ciphers[i]) && ciphers[i].mkey != KEX_GENERIC {
        var n := new Node(ciphers[i]);
        list.Push(n);
      }
    }
    assert ciphers[..|ciphers|] == ciphers;
  }

  lemma CollectedIsPristine(es: seq<Entry<Node>>, ciphers: seq<Cipher>)
    requires Collected(es, ciphers)
    ensures Pristine(es)
  {}

  /** Builds the preference list for a configuration string; None when it is rejected. */
  method CreateCipherList(t: Tables, supports: Cipher -> bool, hasAes: bool, s: string, strict: bool)
    returns (prefs: Option<seq<(Cipher, bool)>>, ghost start: seq<Entry<Node>>)
    ensures Collected(start, Offered(t.ciphers, supports)) && Pristine(start)
    ensures prefs.Some? <==> ConfigCommands(t, hasAes, s, strict).1
    ensures prefs.Some? ==> prefs.value == Preferences(Run(ConfigCommands(t, hasAes, s, strict).0, start))
    ensures prefs.Some? && prefs.value != [] ==> !prefs.value[|prefs.value| - 1].1
    ensures prefs.Some? ==> forall c, p :: Banned(t, AfterDefault(s), strict, c) && p in prefs.value ==> p.0 != c
  {
    hide List.Ok, Run, Scan, InitialCommands, Collected, Offered, Pristine, Preferences, ActiveSuffix, Ciphers,
         PreferredCiphers, Banned;
    var list := CollectCiphers(t.ciphers, supports);
    start := list.entries;
    CollectedIsPristine(start, Offered(t.ciphers, supports));
    ghost var first := InitialCommands(hasAes);
    RunPlain(list, hasAes);
    ghost var default: seq<Command> := [];
    var p := 0;
    RunNothing(list.entries);
    if StartsWithDefault(s) {
      var ok := ProcessRuleString(list, t, DEFAULT_CIPHER_LIST, strict);
      default := Scan(t, DEFAULT_CIPHER_LIST, 0, strict, false, false).0;
      RunConcat(first, default, start);
      if !ok {
        return None, start;
      }
      p := 7;
      if At(s, p) == ':' {
        p := p + 1;
      }
    } else {
      assert first + default == first;
    }
    assert s[p..] == AfterDefault(s);
    ghost var rules := Scan(t, s[p..], 0, strict, false, false);
    RunConcat(first + default, rules.0, start);
    if At(s, p) == '\0' {
      NothingToScan(t, s[p..], strict);
      RunNothing(list.entries);
    } else {
      var ok := ProcessRuleString(list, t, s[p..], strict);
      if !ok {
        return None, start;
      }
    }
    var result := list.ActiveCiphers();
    prefs := Some(result);
    AcceptedConfigIsSound(t, hasAes, s, strict, start);
    forall c | Banned(t, AfterDefault(s), strict, c)
      ensures forall p :: p in result ==> p.0 != c
    {
      BannedIsNotPreferred(t, hasAes, s, strict, start, c);
    }
  }

  /** The built-in ordering rules, applied one after another. */
  method RunPlain(list: List, hasAes: bool)
    requires list.Ok()
    modifies list, list.nodes
    ensures list.Ok()
    ensures forall j :: 0 <= j < |list.nodes| ==> list.nodes[j] in old(list.nodes)
    ensures list.entries == Run(InitialCommands(hasAes), old(list.entries))
  {
    hide List.Ok, Apply, Run;
    var cs := InitialCommands(hasAes);
    ghost var orig := list.entries;
    InitialIsPlain(hasAes);
    RunNothing(orig);
    assert cs[..0] == [];
    for i := 0 to |cs|
      invariant list.Ok()
      invariant forall j :: 0 <= j < |list.nodes| ==> list.nodes[j] in old(list.nodes)
      invariant list.entries == Run(cs[..i], orig)
    {
      assert cs[i] in cs;
      assert cs[..i + 1] == cs[..i] + [cs[i]];
      RunConcat(cs[..i], [cs[i]], orig);
      RunSingle(cs[i], list.entries);
      list.ApplyRule(cs[i].rule);
    }
    assert cs[..|cs|] == cs;
  }

  lemma NothingToScan(t: Tables, s: string, strict: bool)
    requires At(s, 0) == '\0'
    ensures Scan(t, s, 0, strict, false, false) == ([], true)
  {}
}
