/**
 What every accepted rule string leaves true of the preference list.
 */
module CipherInvariants {
  import opened CipherRules
  import opened CipherStrength
  import opened CipherScanner

  // ----- active ciphers form a suffix ----------------------------------------

  ghost predicate AllActive<T>(es: seq<Entry<T>>) {
    forall e :: e in es ==> e.active
  }

  ghost predicate NoneActive<T>(es: seq<Entry<T>>) {
    forall e :: e in es ==> !e.active
  }

  predicate ActiveSuffix<T>(es: seq<Entry<T>>) {
    forall i, j :: 0 <= i < j < |es| && es[i].active ==> es[j].active
  }

  lemma SuffixThenActive<T>(a: seq<Entry<T>>, b: seq<Entry<T>>)
    requires ActiveSuffix(a) && AllActive(b)
    ensures ActiveSuffix(a + b)
  {}

  lemma InactiveThenSuffix<T>(a: seq<Entry<T>>, b: seq<Entry<T>>)
    requires NoneActive(a) && ActiveSuffix(b)
    ensures ActiveSuffix(a + b)
  {
    forall i | 0 <= i < |a|
      ensures !a[i].active
    {
      assert a[i] in a;
    }
  }

  lemma {:induction false} KeptIsSuffix<T>(r: Rule, es: seq<Entry<T>>)
    requires ActiveSuffix(es)
    ensures ActiveSuffix(Kept(r, es))
    decreases |es|
  {
    hide Moves;
    if es != [] {
      KeptIsSuffix(r, es[1..]);
      KeptAreMembers(r, es[1..]);
      if es[0].active {
        assert AllActive(es[1..]);
        assert AllActive([es[0]] + Kept(r, es[1..]));
      } else {
        InactiveThenSuffix([es[0]], Kept(r, es[1..]));
      }
    }
  }

  lemma {:induction false} KeptAreMembers<T>(r: Rule, es: seq<Entry<T>>)
    ensures forall e :: e in Kept(r, es) ==> e in es && !Moves(r, e)
    decreases |es|
  {
    hide Moves;
    if es != [] {
      KeptAreMembers(r, es[1..]);
    }
  }

  lemma {:induction false} MovedFlags<T>(r: Rule, es: seq<Entry<T>>)
    ensures match r.kind
            case Add => forall e :: e in Moved(r, es) ==> e.active && e.inGroup == r.inGroup
            case Ord => forall e :: e in Moved(r, es) ==> e.active && !e.inGroup
            case Del => forall e :: e in Moved(r, es) ==> !e.active && !e.inGroup
            case Kill => true
    decreases |es|
  {
    hide Selects;
    if es != [] {
      MovedFlags(r, es[1..]);
    }
  }

  lemma ApplyKeepsSuffix<T>(r: Rule, es: seq<Entry<T>>)
    requires ActiveSuffix(es)
    ensures ActiveSuffix(Apply(r, es))
  {
    hide Kept, Moved, ActiveSuffix, AllActive, NoneActive;
    KeptIsSuffix(r, es);
    MovedFlags(r, es);
    match r.kind
    case Kill =>
    case Del => AllAreInactive(Moved(r, es)); InactiveThenSuffix(Moved(r, es), Kept(r, es));
    case _ => AllAreActive(Moved(r, es)); SuffixThenActive(Kept(r, es), Moved(r, es));
  }

  lemma AllAreActive<T>(es: seq<Entry<T>>)
    requires forall e :: e in es ==> e.active
    ensures AllActive(es)
  {}

  lemma AllAreInactive<T>(es: seq<Entry<T>>)
    requires forall e :: e in es ==> !e.active
    ensures NoneActive(es)
  {}

  lemma StrengthSortKeepsSuffix<T>(es: seq<Entry<T>>)
    ensures ActiveSuffix(StrengthSort(es))
  {
    hide Inactive, StrengthSort, Descending, ActiveSuffix, MaxBits, StrengthBits;
    StrengthSortForm(es);
    InactiveAll(es);
    DescendingAll(es, MaxBits(es), 0);
    AllAreInactive(Inactive(es));
    AllAreActive(Descending(es, MaxBits(es), 0));
    ActiveIsSuffix(Descending(es, MaxBits(es), 0));
    InactiveThenSuffix(Inactive(es), Descending(es, MaxBits(es), 0));
  }

  lemma ActiveIsSuffix<T>(es: seq<Entry<T>>)
    requires AllActive(es)
    ensures ActiveSuffix(es)
  {}

  lemma CloseKeepsSuffix<T>(es: seq<Entry<T>>)
    requires ActiveSuffix(es)
    ensures ActiveSuffix(Close(es))
  {}

  /** Whatever commands run, the active ciphers stay together at the end. */
  lemma {:induction false} RunKeepsSuffix<T>(cs: seq<Command>, es: seq<Entry<T>>)
    requires ActiveSuffix(es)
    ensures ActiveSuffix(Run(cs, es))
    decreases |cs|
  {
    hide ActiveSuffix, Apply, StrengthSort, Close;
    if cs != [] {
      match cs[0] {
        case ApplyRule(r) => ApplyKeepsSuffix(r, es);
        case SortByStrength => StrengthSortKeepsSuffix(es);
        case CloseGroup => CloseKeepsSuffix(es);
      }
      RunKeepsSuffix(cs[1..], RunOne(cs[0], es));
    }
  }

  // ----- no cipher appears from nowhere or twice -----------------------------

  function Ciphers<T>(es: seq<Entry<T>>): multiset<Cipher>
    decreases |es|
  {
    if es == [] then multiset{} else multiset{es[0].cipher} + Ciphers(es[1..])
  }

  lemma {:induction false} CiphersConcat<T>(a: seq<Entry<T>>, b: seq<Entry<T>>)
    ensures Ciphers(a + b) == Ciphers(a) + Ciphers(b)
    decreases |a|
  {
    if a == [] {
      assert a + b == b;
    } else {
      assert (a + b)[1..] == a[1..] + b;
      CiphersConcat(a[1..], b);
    }
  }

  lemma CiphersCons<T>(es: seq<Entry<T>>)
    requires es != []
    ensures Ciphers(es) == multiset{es[0].cipher} + Ciphers(es[1..])
  {}

  lemma NoCiphers<T>()
    ensures Ciphers<T>([]) == multiset{}
  {}

  lemma {:induction false} KeptPlusMoved<T>(r: Rule, es: seq<Entry<T>>)
    ensures Ciphers(Kept(r, es)) + Ciphers(Moved(r, es)) == Ciphers(es)
    decreases |es|
  {
    hide Moves, Ciphers;
    if es == [] {
      NoCiphers<T>();
    } else {
      KeptPlusMoved(r, es[1..]);
      var e, kept, moved := es[0], Kept(r, es[1..]), Moved(r, es[1..]);
      CiphersCons(es);
      if Moves(r, e) {
        assert Kept(r, es) == kept && Moved(r, es) == [Touch(r, e)] + moved;
        CiphersCons([Touch(r, e)] + moved);
      } else {
        assert Kept(r, es) == [e] + kept && Moved(r, es) == moved;
        CiphersCons([e] + kept);
      }
    }
  }

  lemma ApplyCiphers<T>(r: Rule, es: seq<Entry<T>>)
    ensures if r.kind.Kill? then Ciphers(Apply(r, es)) <= Ciphers(es) else Ciphers(Apply(r, es)) == Ciphers(es)
  {
    hide Kept, Moved, Ciphers;
    KeptPlusMoved(r, es);
    CiphersConcat(Kept(r, es), Moved(r, es));
    CiphersConcat(Moved(r, es), Kept(r, es));
  }

  lemma {:induction false} PassesCiphers<T>(orig: seq<Entry<T>>, es: seq<Entry<T>>, bits: int)
    requires bits >= -1
    ensures Ciphers(Passes(orig, es, bits)) == Ciphers(es)
    decreases bits
  {
    hide Ciphers, Apply, Uses;
    if bits >= 0 {
      ApplyCiphers(OrdRule(bits), es);
      PassesCiphers(orig, if Uses(orig, bits) > 0 then Apply(OrdRule(bits), es) else es, bits - 1);
    }
  }

  lemma CloseCiphers<T>(es: seq<Entry<T>>)
    ensures Ciphers(Close(es)) == Ciphers(es)
  {
    if es != [] {
      var k := |es| - 1;
      assert es == es[..k] + [es[k]];
      assert Close(es) == es[..k] + [es[k].(inGroup := false)];
      CiphersConcat(es[..k], [es[k]]);
      CiphersConcat(es[..k], [es[k].(inGroup := false)]);
    }
  }

  lemma RunOneCiphers<T>(c: Command, es: seq<Entry<T>>)
    ensures Ciphers(RunOne(c, es)) <= Ciphers(es)
  {
    hide Ciphers, Apply, Passes, Close;
    match c
    case ApplyRule(r) => ApplyCiphers(r, es);
    case SortByStrength => PassesCiphers(es, es, MaxBits(es));
    case CloseGroup => CloseCiphers(es);
  }

  /** Commands only ever drop ciphers; so a list without repeats stays without. */
  lemma {:induction false} RunCiphers<T>(cs: seq<Command>, es: seq<Entry<T>>)
    ensures Ciphers(Run(cs, es)) <= Ciphers(es)
    decreases |cs|
  {
    hide Ciphers, RunOne;
    if cs != [] {
      RunOneCiphers(cs[0], es);
      RunCiphers(cs[1..], RunOne(cs[0], es));
    }
  }

  lemma {:induction false} MembersAreCiphers<T>(es: seq<Entry<T>>, c: Cipher)
    ensures c in Ciphers(es) <==> exists e :: e in es && e.cipher == c
    decreases |es|
  {
    if es != [] {
      MembersAreCiphers(es[1..], c);
      if exists e :: e in es && e.cipher == c {
        var e :| e in es && e.cipher == c;
        assert e == es[0] || e in es[1..];
      } else {
        assert es[0] in es;
      }
    }
  }

  /** A cipher killed by a rule never comes back, whatever commands came before and
      whatever commands follow. */
  lemma KilledStaysOut<T>(before: seq<Command>, sel: Selector, inGroup: bool, after: seq<Command>, es: seq<Entry<T>>,
                          c: Cipher)
    requires Selects(sel, c)
    ensures c !in Ciphers(Run(before + [ApplyRule(Rule(Kill, sel, inGroup))] + after, es))
  {
    hide Ciphers, Run, Selects, RunOne;
    var kill := Rule(Kill, sel, inGroup);
    var mid := Run(before, es);
    RunConcat(before + [ApplyRule(kill)], after, es);
    RunConcat(before, [ApplyRule(kill)], es);
    RunSingle(ApplyRule(kill), mid);
    RunOneRule(kill, mid);
    RunCiphers(after, Apply(kill, mid));
    KeptAreMembers(kill, mid);
    MembersAreCiphers(Apply(kill, mid), c);
  }

  lemma RunSingle<T>(c: Command, es: seq<Entry<T>>)
    ensures Run([c], es) == RunOne(c, es)
  {
    hide RunOne;
    assert [c][1..] == [];
  }

  lemma RunOneRule<T>(r: Rule, es: seq<Entry<T>>)
    ensures RunOne(ApplyRule(r), es) == Apply(r, es)
  {}

  // ----- preference groups are closed ----------------------------------------

  ghost predicate AllClosed<T>(es: seq<Entry<T>>) {
    forall e :: e in es ==> !e.inGroup
  }

  predicate LastClosed<T>(es: seq<Entry<T>>) {
    es == [] || !es[|es| - 1].inGroup
  }

  /** What holds between two turns of the scan: no entry is in a group until the
      first '[', and after it the last entry is closed outside brackets. */
  ghost predicate GroupState<T>(es: seq<Entry<T>>, inGroup: bool, hasGroup: bool) {
    && (!hasGroup ==> !inGroup && AllClosed(es))
    && (hasGroup && !inGroup ==> LastClosed(es))
  }

  lemma ApplyKeepsClosed<T>(r: Rule, es: seq<Entry<T>>)
    requires AllClosed(es) && !r.inGroup
    ensures AllClosed(Apply(r, es))
  {
    hide Kept, Moved;
    KeptAreMembers(r, es);
    MovedFlags(r, es);
  }

  lemma AddKeepsLastClosed<T>(r: Rule, es: seq<Entry<T>>)
    requires LastClosed(es) && r.kind.Add? && !r.inGroup
    ensures LastClosed(Apply(r, es))
  {
    hide Kept, Moved, Moves;
    MovedFlags(r, es);
    var moved := Moved(r, es);
    if moved == [] {
      NothingMoved(r, es);
    } else {
      assert moved[|moved| - 1] in moved;
    }
  }

  lemma {:induction false} NothingMoved<T>(r: Rule, es: seq<Entry<T>>)
    requires Moved(r, es) == []
    ensures Kept(r, es) == es
    decreases |es|
  {
    hide Moves;
    if es != [] {
      NothingMoved(r, es[1..]);
    }
  }

  lemma {:induction false} DescendingClosed<T>(es: seq<Entry<T>>, high: int, low: nat)
    ensures AllClosed(Descending(es, high, low))
    decreases high
  {
    hide StrengthBits, Moved;
    if high >= low {
      MovedFlags(OrdRule(high), es);
      DescendingClosed(es, high - 1, low);
    }
  }

  lemma StrengthSortKeepsClosed<T>(es: seq<Entry<T>>)
    requires AllClosed(es)
    ensures AllClosed(StrengthSort(es))
  {
    hide StrengthBits, Inactive, Descending, StrengthSort, MaxBits;
    StrengthSortForm(es);
    InactiveAll(es);
    DescendingClosed(es, MaxBits(es), 0);
  }

  lemma RunNothing<T>(es: seq<Entry<T>>)
    ensures Run([], es) == es
  {}

  lemma ScanRuleKeepsGroups<T>(t: Tables, s: string, l: nat, strict: bool, op: Operator, inGroup: bool,
                               hasGroup: bool, es: seq<Entry<T>>)
    requires l <= |s| && GroupState(es, inGroup, hasGroup)
    requires hasGroup ==> op == Plain(Add)
    ensures var step := ScanRule(t, s, l, strict, op, inGroup, hasGroup);
            step.Continue? ==> GroupState(Run(step.commands, es), inGroup, hasGroup)
  {
    hide Apply, StrengthSort, AllClosed, LastClosed, Run, ReadItem, SkipItem, WordEnd;
    var step := ScanRule(t, s, l, strict, op, inGroup, hasGroup);
    if step.Continue? {
      if step.commands == [] {
        RunNothing(es);
      } else {
        RunSingle(step.commands[0], es);
        if op.Special? {
          StrengthSortKeepsClosed(es);
        } else if !hasGroup {
          ApplyKeepsClosed(step.commands[0].rule, es);
        } else if !inGroup {
          AddKeepsLastClosed(step.commands[0].rule, es);
        }
      }
    }
  }

  lemma ScanStepKeepsGroups<T>(t: Tables, s: string, l: nat, strict: bool, inGroup: bool, hasGroup: bool,
                               es: seq<Entry<T>>)
    requires l <= |s| && GroupState(es, inGroup, hasGroup)
    ensures var step := ScanStep(t, s, l, strict, inGroup, hasGroup);
            step.Continue? ==> GroupState(Run(step.commands, es), step.inGroup, step.hasGroup)
  {
    hide ScanRule, AllClosed, Run;
    RunNothing(es);
    var ch := At(s, l);
    if inGroup {
      if ch == ']' {
        RunSingle(CloseGroup, es);
      } else {
        ScanRuleKeepsGroups(t, s, l, strict, Plain(Add), inGroup, hasGroup, es);
      }
    } else if ch != '\0' && !(hasGroup && IsOperator(ch)) {
      ScanRuleKeepsGroups(t, s, if IsOperator(ch) then l + 1 else l, strict, OperatorAt(ch), inGroup, hasGroup, es);
    }
  }

  /** Running an accepted rule string leaves every preference group closed. */
  lemma {:induction false} ScanKeepsGroups<T>(t: Tables, s: string, l: nat, strict: bool, inGroup: bool,
                                              hasGroup: bool, es: seq<Entry<T>>)
    requires l <= |s| && GroupState(es, inGroup, hasGroup)
    requires Scan(t, s, l, strict, inGroup, hasGroup).1
    ensures LastClosed(Run(Scan(t, s, l, strict, inGroup, hasGroup).0, es))
    decreases |s| - l
  {
    hide ScanStep, AllClosed, LastClosed, Run;
    match ScanStep(t, s, l, strict, inGroup, hasGroup)
    case Finished =>
      RunNothing(es);
      ClosedAtEnd(es, hasGroup);
    case Bad =>
    case Continue(pos, ig, hg, commands) =>
      ScanStepKeepsGroups(t, s, l, strict, inGroup, hasGroup, es);
      ScanKeepsGroups(t, s, pos, strict, ig, hg, Run(commands, es));
      RunConcat(commands, Scan(t, s, pos, strict, ig, hg).0, es);
  }

  lemma ClosedAtEnd<T>(es: seq<Entry<T>>, hasGroup: bool)
    requires GroupState(es, false, hasGroup)
    ensures LastClosed(es)
  {
    if es != [] {
      assert es[|es| - 1] in es;
    }
  }

  /** A rule string without '[' opens no group at all. */
  lemma {:induction false} NoBracketNoGroup<T>(t: Tables, s: string, l: nat, strict: bool, es: seq<Entry<T>>)
    requires l <= |s| && '[' !in s && AllClosed(es)
    ensures AllClosed(Run(Scan(t, s, l, strict, false, false).0, es))
    decreases |s| - l
  {
    hide ScanStep, AllClosed, Run;
    RunNothing(es);
    NoBracketStep(t, s, l, strict);
    match ScanStep(t, s, l, strict, false, false)
    case Finished =>
    case Bad =>
    case Continue(pos, ig, hg, commands) =>
      ScanStepKeepsGroups(t, s, l, strict, false, false, es);
      NoBracketNoGroup(t, s, pos, strict, Run(commands, es));
      RunConcat(commands, Scan(t, s, pos, strict, ig, hg).0, es);
  }

  lemma NoBracketStep(t: Tables, s: string, l: nat, strict: bool)
    requires l <= |s| && '[' !in s
    ensures var step := ScanStep(t, s, l, strict, false, false);
            step.Continue? ==> !step.inGroup && !step.hasGroup
  {}
}
