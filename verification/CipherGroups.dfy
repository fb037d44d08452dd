/**
 What brackets in a rule string mean: which bracket added each preferred cipher, and
 that the preference groups are exactly the brackets.
 */
module CipherGroups {
  import opened Common
  import opened CipherRules
  import opened CipherStrength
  import opened CipherScanner
  import opened CipherInvariants
  import opened CipherConfig
  import opened CipherChoice

  // ----- the bracket that added a cipher -------------------------------------

  /** A bracket goes by the position of its '['; None is outside all brackets. */
  type Bracket = Option<nat>

  function All(b: Bracket, n: nat): (r: seq<Bracket>)
    ensures |r| == n && forall i :: 0 <= i < n ==> r[i] == b
  {
    seq(n, _ => b)
  }

  /** Preferences beyond those labelled before were added in bracket b. */
  function Label(labels: seq<Bracket>, n: nat, b: Bracket): (r: seq<Bracket>)
    ensures |r| == n
  {
    if n <= |labels| then labels[..n] else labels + All(b, n - |labels|)
  }

  function OpenAfter(open: Bracket, l: nat, inGroup: bool): Bracket {
    if !inGroup then None else if open.None? then Some(l) else open
  }

  /** For each preference once the string has run from position l on, the bracket that
      added it; `open` is the bracket the scan stands in. */
  function Brackets<T>(t: Tables, s: string, l: nat, strict: bool, open: Bracket, hasGroup: bool,
                       es: seq<Entry<T>>, labels: seq<Bracket>): seq<Bracket>
    requires l <= |s|
    decreases |s| - l
  {
    match ScanStep(t, s, l, strict, open.Some?, hasGroup)
    case Continue(pos, inGroup, hg, commands) =>
      var next := Run(commands, es);
      Brackets(t, s, pos, strict, OpenAfter(open, l, inGroup), hg, next, Label(labels, |Preferences(next)|, open))
    case _ => labels
  }

  /** Two preferences are in one group if and only if one bracket added both. */
  ghost predicate GroupsAreBrackets(flags: seq<bool>, labels: seq<Bracket>) {
    && |flags| == |labels|
    && forall i: nat, j: nat :: i < j < |flags| ==>
         (SameGroup(flags, i, j) <==> labels[i].Some? && labels[i] == labels[j])
  }

  // ----- flags and labels ----------------------------------------------------

  /** One bracket's preferences stand together, and flags join neighbours of one bracket. */
  ghost predicate Contiguous(labels: seq<Bracket>) {
    forall i, k, j :: 0 <= i <= k <= j < |labels| && labels[i].Some? && labels[i] == labels[j] ==>
      labels[k] == labels[i]
  }

  ghost predicate Joined(flags: seq<bool>, labels: seq<Bracket>)
    requires |flags| == |labels|
  {
    forall i: nat :: i + 1 < |flags| ==> JoinedAt(flags, labels, i)
  }

  predicate JoinedAt(flags: seq<bool>, labels: seq<Bracket>, i: nat)
    requires i + 1 < |flags| == |labels|
  {
    flags[i] <==> labels[i].Some? && labels[i] == labels[i + 1]
  }

  /** What holds between two turns of the scan, at position l inside bracket `open`. */
  ghost predicate Labelled(flags: seq<bool>, labels: seq<Bracket>, open: Bracket, l: nat) {
    && |flags| == |labels|
    && Contiguous(labels) && Joined(flags, labels)
    && (flags != [] ==> (flags[|flags| - 1] <==> open.Some? && labels[|flags| - 1] == open))
    && (forall i :: 0 <= i < |labels| && labels[i].Some? ==> labels[i].value < l)
    && (open.Some? ==>
          open.value < l && forall i, j :: 0 <= i < j < |labels| && labels[i] == open ==> labels[j] == open)
  }

  /** More preferences, added in the bracket that is open. */
  lemma LabelledMore(flags: seq<bool>, labels: seq<Bracket>, open: Bracket, l: nat, more: seq<bool>)
    requires Labelled(flags, labels, open, l)
    requires forall f :: f in more ==> f == open.Some?
    ensures Labelled(flags + more, Label(labels, |flags + more|, open), open, l)
  {
    var n := |flags|;
    var now := Label(labels, |flags + more|, open);
    forall i | n <= i < n + |more|
      ensures (flags + more)[i] == open.Some? && now[i] == open
    {
      assert more[i - n] in more;
    }
    LabelsMore(labels, open, |more|);
    assert now == labels + All(open, |more|);
    StillJoined(flags, labels, open, more);
    if more == [] {
      assert flags + more == flags && now == labels;
    } else {
      assert (flags + more)[n + |more| - 1] == open.Some? && now[n + |more| - 1] == open;
    }
  }

  lemma StillJoined(flags: seq<bool>, labels: seq<Bracket>, open: Bracket, more: seq<bool>)
    requires |flags| == |labels| && Joined(flags, labels)
    requires flags != [] ==> (flags[|flags| - 1] <==> open.Some? && labels[|flags| - 1] == open)
    requires forall f :: f in more ==> f == open.Some?
    ensures Joined(flags + more, labels + All(open, |more|))
  {
    var all, now := flags + more, labels + All(open, |more|);
    forall i: nat | i + 1 < |all|
      ensures JoinedAt(all, now, i)
    {
      if i + 1 < |flags| {
        assert JoinedAt(flags, labels, i);
      } else if i >= |flags| {
        assert more[i - |flags|] in more;
      }
    }
  }

  lemma LabelsMore(labels: seq<Bracket>, open: Bracket, m: nat)
    requires Contiguous(labels)
    requires open.Some? ==> forall i, j :: 0 <= i < j < |labels| && labels[i] == open ==> labels[j] == open
    ensures var now := Label(labels, |labels| + m, open);
            && Contiguous(now)
            && (open.Some? ==> forall i, j :: 0 <= i < j < |now| && now[i] == open ==> now[j] == open)
  {}

  /** The bracket closes: the last flag is cleared. */
  lemma LabelledClosed(flags: seq<bool>, labels: seq<Bracket>, open: Bracket, l: nat)
    requires Labelled(flags, labels, open, l)
    ensures Labelled(if flags == [] then [] else flags[|flags| - 1 := false], labels, None, l)
  {
    if flags != [] {
      var now := flags[|flags| - 1 := false];
      forall i: nat | i + 1 < |flags|
        ensures JoinedAt(now, labels, i)
      {
        assert JoinedAt(flags, labels, i);
      }
    }
  }

  /** A bracket opens at l. */
  lemma LabelledOpened(flags: seq<bool>, labels: seq<Bracket>, l: nat)
    requires Labelled(flags, labels, None, l)
    ensures Labelled(flags, labels, Some(l), l + 1)
  {}

  lemma LabelledOn(flags: seq<bool>, labels: seq<Bracket>, open: Bracket, l: nat, pos: nat)
    requires Labelled(flags, labels, open, l) && l <= pos
    ensures Labelled(flags, labels, open, pos)
  {}

  /** Outside all brackets, with every flag clear. */
  lemma LabelledPlain(flags: seq<bool>, labels: seq<Bracket>, l: nat)
    requires |flags| == |labels| && (forall f :: f in flags ==> !f) && (forall b: Bracket :: b in labels ==> b.None?)
    ensures Labelled(flags, labels, None, l)
  {
    forall i | 0 <= i < |flags|
      ensures !flags[i] && labels[i].None?
    {
      assert flags[i] in flags && labels[i] in labels;
    }
  }

  lemma LabelledMeansGroups(flags: seq<bool>, labels: seq<Bracket>, l: nat)
    requires Labelled(flags, labels, None, l)
    ensures GroupsAreBrackets(flags, labels)
  {
    forall i: nat, j: nat | i < j < |flags|
      ensures SameGroup(flags, i, j) <==> labels[i].Some? && labels[i] == labels[j]
    {
      if SameGroup(flags, i, j) {
        SameBracket(flags, labels, i, j);
      } else {
        var k :| i <= k < j && !flags[k];
        assert JoinedAt(flags, labels, k);
      }
    }
  }

  lemma {:induction false} SameBracket(flags: seq<bool>, labels: seq<Bracket>, i: nat, j: nat)
    requires |flags| == |labels| && Joined(flags, labels) && i < j < |flags| && SameGroup(flags, i, j)
    ensures labels[i].Some? && labels[i] == labels[j]
    decreases j
  {
    assert flags[j - 1];
    assert JoinedAt(flags, labels, j - 1);
    if i < j - 1 {
      SameBracket(flags, labels, i, j - 1);
    }
  }

  // ----- preferences under the commands that may follow a '[' ----------------

  function Flags<T>(es: seq<Entry<T>>): (r: seq<bool>)
    ensures |r| == |Preferences(es)|
  {
    FlagsOf(Preferences(es))
  }

  lemma {:induction false} PreferencesConcat<T>(a: seq<Entry<T>>, b: seq<Entry<T>>)
    ensures Preferences(a + b) == Preferences(a) + Preferences(b)
    decreases |a|
  {
    hide Preferences;
    if a == [] {
      assert a + b == b;
      NoPreferences<T>();
    } else {
      PreferencesStep(a);
      PreferencesStep(a + b);
      assert (a + b)[1..] == a[1..] + b;
      PreferencesConcat(a[1..], b);
    }
  }

  lemma {:induction false} AddKeepsPreferences<T>(r: Rule, es: seq<Entry<T>>)
    requires r.kind.Add?
    ensures Preferences(Kept(r, es)) == Preferences(es)
    decreases |es|
  {
    hide Selects;
    if es != [] {
      AddKeepsPreferences(r, es[1..]);
      if !Moves(r, es[0]) {
        assert ([es[0]] + Kept(r, es[1..]))[1..] == Kept(r, es[1..]);
      } else {
        assert Kept(r, es) == Kept(r, es[1..]) && !es[0].active;
      }
    }
  }

  lemma {:induction false} UniformFlags<T>(es: seq<Entry<T>>, b: bool)
    requires forall e :: e in es ==> e.inGroup == b
    ensures forall p :: p in Preferences(es) ==> p.1 == b
    decreases |es|
  {
    if es != [] {
      UniformFlags(es[1..], b);
    }
  }

  /** ADD appends to the preferences, all of them with the rule's own flag. */
  lemma AddAppends<T>(r: Rule, es: seq<Entry<T>>)
    requires r.kind.Add?
    ensures Preferences(es) <= Preferences(Apply(r, es))
    ensures forall p :: p in Preferences(Apply(r, es))[|Preferences(es)|..] ==> p.1 == r.inGroup
  {
    hide Kept, Moved, Preferences;
    AddKeepsPreferences(r, es);
    PreferencesConcat(Kept(r, es), Moved(r, es));
    MovedFlags(r, es);
    UniformFlags(Moved(r, es), r.inGroup);
  }

  lemma {:induction false} ClosePreferences<T>(es: seq<Entry<T>>)
    requires ActiveSuffix(es)
    ensures var ps := Preferences(es);
            Preferences(Close(es)) == if ps == [] then [] else ps[|ps| - 1 := (ps[|ps| - 1].0, false)]
    decreases |es|
  {
    hide Preferences;
    if |es| == 1 {
      assert Close(es)[1..] == [] && es[1..] == [];
      PreferencesStep(es);
      PreferencesStep(Close(es));
      NoPreferences<T>();
    } else if es != [] {
      ClosePreferences(es[1..]);
      assert Close(es)[1..] == Close(es[1..]) && Close(es)[0] == es[0];
      PreferencesStep(es);
      PreferencesStep(Close(es));
      if es[0].active {
        SomePreference(es[1..]);
      }
    } else {
      NoPreferences<T>();
    }
  }

  lemma {:induction false} SomePreference<T>(es: seq<Entry<T>>)
    requires es != [] && es[|es| - 1].active
    ensures Preferences(es) != []
    decreases |es|
  {
    if |es| > 1 {
      SomePreference(es[1..]);
    }
  }

  // ----- one turn of the scan ------------------------------------------------

  /** Once a '[' was seen, a turn only appends preferences; the ciphers already there
      keep their places, and only the closing bracket clears a flag. */
  lemma GroupedTurnAppends<T>(t: Tables, s: string, l: nat, strict: bool, inGroup: bool, es: seq<Entry<T>>)
    requires l <= |s| && ActiveSuffix(es)
    ensures var step := ScanStep(t, s, l, strict, inGroup, true);
            step.Continue? ==>
              CiphersOf(Preferences(es)) <= CiphersOf(Preferences(Run(step.commands, es)))
  {
    hide ActiveSuffix, Preferences, Apply, Close, StrengthSort, ReadItem;
    var step := ScanStep(t, s, l, strict, inGroup, true);
    if step.Continue? {
      if step.commands == [] {
        RunNothing(es);
      } else {
        RunSingle(step.commands[0], es);
        if step.commands[0] == CloseGroup {
          ClosePreferences(es);
        } else {
          AddAppends(step.commands[0].rule, es);
        }
      }
    }
  }

  /** The same with flags and labels: an addition gets the open bracket's. */
  lemma GroupedTurn<T>(t: Tables, s: string, l: nat, strict: bool, open: Bracket, es: seq<Entry<T>>,
                       labels: seq<Bracket>)
    requires l <= |s| && ActiveSuffix(es) && Labelled(Flags(es), labels, open, l)
    ensures var step := ScanStep(t, s, l, strict, open.Some?, true);
            step.Continue? ==>
              var next := Run(step.commands, es);
              Labelled(Flags(next), Label(labels, |Preferences(next)|, open),
                       OpenAfter(open, l, step.inGroup), step.pos)
  {
    hide ActiveSuffix, Preferences, Apply, Close, StrengthSort, ReadItem, Labelled;
    var step := ScanStep(t, s, l, strict, open.Some?, true);
    var flags := Flags(es);
    if step.Continue? {
      LabelsMatch(flags, labels, open, l);
      if step.commands == [] {
        RunNothing(es);
        if open.None? && step.inGroup {
          LabelledOpened(flags, labels, l);
        } else {
          LabelledOn(flags, labels, open, l, step.pos);
        }
      } else {
        RunSingle(step.commands[0], es);
        var next := RunOne(step.commands[0], es);
        if step.commands[0] == CloseGroup {
          ClosePreferences(es);
          LabelledClosed(flags, labels, open, l);
          assert Flags(next) == if flags == [] then [] else flags[|flags| - 1 := false];
          LabelledOn(Flags(next), labels, None, l, step.pos);
        } else {
          AddedFlags(step.commands[0].rule, es);
          var more := Flags(next)[|flags|..];
          assert flags + more == Flags(next);
          LabelledMore(flags, labels, open, l, more);
          LabelledOn(flags + more, Label(labels, |flags + more|, open), open, l, step.pos);
        }
      }
    }
  }

  lemma LabelsMatch(flags: seq<bool>, labels: seq<Bracket>, open: Bracket, l: nat)
    requires Labelled(flags, labels, open, l)
    ensures |flags| == |labels| && Label(labels, |flags|, open) == labels
  {}

  lemma AddedFlags<T>(r: Rule, es: seq<Entry<T>>)
    requires r.kind.Add?
    ensures Flags(es) <= Flags(Apply(r, es))
    ensures forall f :: f in Flags(Apply(r, es))[|Flags(es)|..] ==> f == r.inGroup
  {
    hide Preferences, Apply;
    AddAppends(r, es);
    var before, after := Preferences(es), Preferences(Apply(r, es));
    forall i | |before| <= i < |after|
      ensures FlagsOf(after)[i] == r.inGroup
    {
      assert after[|before|..][i - |before|] == after[i];
    }
  }

  lemma ClosedFlags<T>(es: seq<Entry<T>>)
    requires AllClosed(es)
    ensures forall f :: f in Flags(es) ==> !f
  {
    hide Preferences;
    UniformFlags(es, false);
    forall i | 0 <= i < |Flags(es)|
      ensures !Flags(es)[i]
    {
      assert Preferences(es)[i] in Preferences(es);
    }
  }

  /** No bracket so far: every flag is clear and every label is None. */
  lemma PlainTurn<T>(t: Tables, s: string, l: nat, strict: bool, es: seq<Entry<T>>, labels: seq<Bracket>)
    requires l <= |s| && AllClosed(es) && forall b: Bracket :: b in labels ==> b.None?
    ensures var step := ScanStep(t, s, l, strict, false, false);
            step.Continue? ==>
              var next := Run(step.commands, es);
              var now := Label(labels, |Preferences(next)|, None);
              && Labelled(Flags(next), now, OpenAfter(None, l, step.inGroup), step.pos)
              && (!step.hasGroup ==> forall b: Bracket :: b in now ==> b.None?)
  {
    hide AllClosed, Preferences, ScanRule, Run, Labelled;
    var step := ScanStep(t, s, l, strict, false, false);
    if step.Continue? {
      ScanStepKeepsGroups(t, s, l, strict, false, false, es);
      var next := Run(step.commands, es);
      if step.hasGroup {
        RunNothing(es);
      }
      ClosedFlags(next);
      var now := Label(labels, |Preferences(next)|, None);
      LabelledPlain(Flags(next), now, l);
      if step.hasGroup {
        LabelledOpened(Flags(next), now, l);
      } else {
        LabelledOn(Flags(next), now, None, l, step.pos);
      }
    }
  }

  // ----- the whole string ----------------------------------------------------

  /** Scanning on from position l with labels for the preferences so far. */
  lemma {:induction false} ScanLabels<T>(t: Tables, s: string, l: nat, strict: bool, open: Bracket, hasGroup: bool,
                                         es: seq<Entry<T>>, labels: seq<Bracket>)
    requires l <= |s| && ActiveSuffix(es)
    requires Labelled(Flags(es), labels, open, l)
    requires !hasGroup ==> open.None? && AllClosed(es) && forall b: Bracket :: b in labels ==> b.None?
    requires Scan(t, s, l, strict, open.Some?, hasGroup).1
    ensures Labelled(Flags(Run(Scan(t, s, l, strict, open.Some?, hasGroup).0, es)),
                     Brackets(t, s, l, strict, open, hasGroup, es, labels), None, |s|)
    decreases |s| - l
  {
    hide ScanStep, AllClosed, Run, Labelled, ActiveSuffix, Preferences, Label;
    match ScanStep(t, s, l, strict, open.Some?, hasGroup)
    case Finished =>
      RunNothing(es);
      LabelledOn(Flags(es), labels, open, l, |s|);
    case Bad =>
    case Continue(pos, inGroup, hg, commands) =>
      var next := Run(commands, es);
      TurnKeepsPhase(t, s, l, strict, open, hasGroup, es);
      if hasGroup {
        GroupedTurn(t, s, l, strict, open, es, labels);
      } else {
        PlainTurn(t, s, l, strict, es, labels);
      }
      RunKeepsSuffix(commands, es);
      ScanLabels(t, s, pos, strict, OpenAfter(open, l, inGroup), hg, next, Label(labels, |Preferences(next)|, open));
      RunConcat(commands, Scan(t, s, pos, strict, inGroup, hg).0, es);
  }

  lemma TurnKeepsPhase<T>(t: Tables, s: string, l: nat, strict: bool, open: Bracket, hasGroup: bool, es: seq<Entry<T>>)
    requires l <= |s| && (!hasGroup ==> open.None? && AllClosed(es))
    ensures var step := ScanStep(t, s, l, strict, open.Some?, hasGroup);
            step.Continue? ==>
              && (hasGroup ==> step.hasGroup)
              && OpenAfter(open, l, step.inGroup).Some? == step.inGroup
              && (!step.hasGroup ==> !step.inGroup && AllClosed(Run(step.commands, es)))
  {
    hide AllClosed, ScanRule, Run;
    var step := ScanStep(t, s, l, strict, open.Some?, hasGroup);
    if !hasGroup {
      ScanStepKeepsGroups(t, s, l, strict, false, false, es);
    }
  }

  /** What brackets mean. For an accepted rule string, two of the resulting preferences
      are in one group if and only if the same bracket of the string added both. */
  lemma StringGroupsAreBrackets<T>(t: Tables, s: string, strict: bool, es: seq<Entry<T>>)
    requires ActiveSuffix(es) && AllClosed(es)
    requires Scan(t, s, 0, strict, false, false).1
    ensures GroupsAreBrackets(Flags(Run(Scan(t, s, 0, strict, false, false).0, es)),
                              Brackets(t, s, 0, strict, None, false, es, All(None, |Preferences(es)|)))
  {
    hide Scan, Run, Labelled, ActiveSuffix, AllClosed, Preferences, GroupsAreBrackets, Brackets;
    var labels := All(None, |Preferences(es)|);
    ClosedFlags(es);
    LabelledPlain(Flags(es), labels, 0);
    ScanLabels(t, s, 0, strict, None, false, es, labels);
    LabelledMeansGroups(Flags(Run(Scan(t, s, 0, strict, false, false).0, es)),
                        Brackets(t, s, 0, strict, None, false, es, labels), |s|);
  }

  // ----- the whole configuration ---------------------------------------------

  /** The list when the rules after an optional DEFAULT begin. */
  function BeforeRules<T>(t: Tables, hasAes: bool, s: string, strict: bool, es: seq<Entry<T>>): seq<Entry<T>> {
    Run(InitialCommands(hasAes)
        + (if StartsWithDefault(s) then Scan(t, DEFAULT_CIPHER_LIST, 0, strict, false, false).0 else []), es)
  }

  /** The bracket of the configuration string that added each preference; the ciphers of
      a DEFAULT prefix were added by none. Positions count from behind that prefix. */
  function ConfigBrackets<T>(t: Tables, hasAes: bool, s: string, strict: bool, es: seq<Entry<T>>): seq<Bracket> {
    var before := BeforeRules(t, hasAes, s, strict, es);
    Brackets(t, AfterDefault(s), 0, strict, None, false, before, All(None, |Preferences(before)|))
  }

  /** The groups of any accepted configuration are the brackets of its string. */
  lemma ConfiguredGroupsAreBrackets<T>(t: Tables, hasAes: bool, s: string, strict: bool,
                                       es: seq<Entry<T>>, prefs: seq<(Cipher, bool)>)
    requires Configured(t, hasAes, s, strict, es, prefs)
    ensures GroupsAreBrackets(FlagsOf(prefs), ConfigBrackets(t, hasAes, s, strict, es))
  {
    hide InitialCommands, Scan, Run, AllClosed, ActiveSuffix, NoneActive, GroupsAreBrackets, Brackets, Preferences;
    var before := BeforeRules(t, hasAes, s, strict, es);
    var first := InitialCommands(hasAes);
    var default := if StartsWithDefault(s) then Scan(t, DEFAULT_CIPHER_LIST, 0, strict, false, false).0 else [];
    InitialIsPlain(hasAes);
    PlainCommandsKeepClosed(first, es);
    DefaultHasNoBracket();
    NoBracketNoGroup(t, DEFAULT_CIPHER_LIST, 0, strict, Run(first, es));
    RunNothing(Run(first, es));
    RunConcat(first, default, es);
    PristineIsSuffix(es);
    RunKeepsSuffix(first + default, es);
    StringGroupsAreBrackets(t, AfterDefault(s), strict, before);
    RunConcat(first + default, Scan(t, AfterDefault(s), 0, strict, false, false).0, es);
  }
}
