/**
 The server's choice of a cipher, over preference groups.
 */
module CipherChoice {
  import opened Common
  import opened CipherRules
  import CipherScanner
  import CipherInvariants
  import CipherConfig

  /** What the handshake allows: protocol version, key exchanges, authentication. */
  datatype Abilities = Abilities(version: nat, kex: bv32, auth: bv32)

  predicate Compatible(a: Abilities, c: Cipher) {
    && MinVersion(c) <= a.version <= MaxVersion(c)
    && c.mkey & a.kex != 0
    && c.auth & a.auth != 0
  }

  /** The first index of a cipher; the length when it is not there. */
  function Find(cs: seq<Cipher>, c: Cipher): (k: nat)
    ensures k <= |cs|
    ensures k < |cs| ==> cs[k] == c
    ensures forall j :: 0 <= j < k ==> cs[j] != c
  {
    if cs == [] || cs[0] == c then 0 else 1 + Find(cs[1..], c)
  }

  /** A cipher of the priority list that may be chosen: compatible and allowed. */
  predicate Acceptable(a: Abilities, prio: seq<Cipher>, allow: seq<Cipher>, i: nat)
    requires i < |prio|
  {
    Compatible(a, prio[i]) && Find(allow, prio[i]) < |allow|
  }

  // ----- groups --------------------------------------------------------------

  // The flag of an element says that its group goes on after it.

  /** Elements i and j, with i before j, are in one group. */
  ghost predicate SameGroup(flags: seq<bool>, i: nat, j: nat)
    requires i <= j < |flags|
  {
    forall k :: i <= k < j ==> flags[k]
  }

  predicate Closed(flags: seq<bool>) {
    flags == [] || !flags[|flags| - 1]
  }

  /** The declarative choice: among the acceptable elements, those whose group comes
      first; among these, the one earliest in the other side's list. */
  ghost predicate IsChoice(a: Abilities, prio: seq<Cipher>, flags: seq<bool>, allow: seq<Cipher>, c: Cipher)
    requires |flags| == |prio|
  {
    exists i: nat :: i < |prio| && prio[i] == c && Best(a, prio, flags, allow, i)
  }

  ghost predicate Best(a: Abilities, prio: seq<Cipher>, flags: seq<bool>, allow: seq<Cipher>, i: nat)
    requires |flags| == |prio| && i < |prio|
  {
    && Acceptable(a, prio, allow, i)
    && (forall j: nat :: j < |prio| && Acceptable(a, prio, allow, j) ==>
          if j < i then SameGroup(flags, j, i) && Find(allow, prio[i]) <= Find(allow, prio[j])
          else SameGroup(flags, i, j) ==> Find(allow, prio[i]) <= Find(allow, prio[j]))
  }

  /** The group of element i is never closed. */
  ghost predicate LeftOpen(flags: seq<bool>, i: nat) {
    forall k :: i <= k < |flags| ==> flags[k]
  }

  /** After i elements without an answer: all acceptable ones so far are in the group
      still running, and `groupMin` is the least index among them, that of `best`. */
  ghost predicate Tracking(a: Abilities, prio: seq<Cipher>, flags: seq<bool>, allow: seq<Cipher>,
                           i: nat, groupMin: int, best: nat)
    requires |flags| == |prio| && i <= |prio|
  {
    && (groupMin != -1 ==>
          best < i && Acceptable(a, prio, allow, best) && Find(allow, prio[best]) == groupMin)
    && (forall j: nat :: j < i && Acceptable(a, prio, allow, j) ==>
          groupMin != -1 && groupMin <= Find(allow, prio[j]) && Running(flags, j, i))
  }

  lemma TrackSkipped(a: Abilities, prio: seq<Cipher>, flags: seq<bool>, allow: seq<Cipher>, i: nat, groupMin: int,
                     best: nat)
    requires |flags| == |prio| && i < |prio| && Tracking(a, prio, flags, allow, i, groupMin, best)
    requires !Acceptable(a, prio, allow, i) && (flags[i] || groupMin == -1)
    ensures Tracking(a, prio, flags, allow, i + 1, groupMin, best)
  {
    hide Acceptable;
  }

  lemma TrackMember(a: Abilities, prio: seq<Cipher>, flags: seq<bool>, allow: seq<Cipher>, i: nat, groupMin: int,
                    best: nat)
    requires |flags| == |prio| && i < |prio| && Tracking(a, prio, flags, allow, i, groupMin, best)
    requires Acceptable(a, prio, allow, i) && flags[i]
    ensures var index := Find(allow, prio[i]);
            if groupMin == -1 || groupMin > index then Tracking(a, prio, flags, allow, i + 1, index, i)
            else Tracking(a, prio, flags, allow, i + 1, groupMin, best)
  {
    hide Acceptable;
  }

  /** The group closes at i: the better of its tracked minimum and element i wins. */
  lemma TrackClosed(a: Abilities, prio: seq<Cipher>, flags: seq<bool>, allow: seq<Cipher>, i: nat, groupMin: int,
                    best: nat)
    requires |flags| == |prio| && i < |prio| && Tracking(a, prio, flags, allow, i, groupMin, best) && !flags[i]
    requires groupMin != -1 || Acceptable(a, prio, allow, i)
    ensures var index := if Acceptable(a, prio, allow, i) && !(groupMin != -1 && groupMin < Find(allow, prio[i]))
                         then Find(allow, prio[i]) else groupMin;
            && 0 <= index < |allow|
            && IsChoice(a, prio, flags, allow, allow[index])
            && exists j: nat :: j < |prio| && Acceptable(a, prio, allow, j) && !LeftOpen(flags, j)
  {
    hide Acceptable, Find, IsChoice, LeftOpen;
    FindAcceptable(a, prio, allow);
    var winner := if Acceptable(a, prio, allow, i) && !(groupMin != -1 && groupMin < Find(allow, prio[i]))
                  then i else best;
    BestInGroup(a, prio, flags, allow, i, winner);
  }

  lemma FindAcceptable(a: Abilities, prio: seq<Cipher>, allow: seq<Cipher>)
    ensures forall i: nat :: i < |prio| && Acceptable(a, prio, allow, i) ==> Find(allow, prio[i]) < |allow|
  {}

  lemma TrackedToEnd(a: Abilities, prio: seq<Cipher>, flags: seq<bool>, allow: seq<Cipher>, groupMin: int, best: nat)
    requires |flags| == |prio| && Tracking(a, prio, flags, allow, |prio|, groupMin, best)
    ensures forall i: nat :: i < |prio| && Acceptable(a, prio, allow, i) ==> LeftOpen(flags, i)
  {
    hide Acceptable;
  }

  /** The selection loop. The client's own order has no groups. */
  method ChooseCipher(a: Abilities, server: seq<Cipher>, flags: seq<bool>, client: seq<Cipher>, serverPreference: bool)
    returns (ret: Option<Cipher>)
    requires |flags| == |server|
    ensures var (prio, allow) := Roles(server, client, serverPreference);
            var groups := Groups(server, flags, client, serverPreference);
            && (ret.Some? ==> IsChoice(a, prio, groups, allow, ret.value))
            && (ret.None? <==> forall i: nat :: i < |prio| && Acceptable(a, prio, allow, i) ==> LeftOpen(groups, i))
  {
    hide Compatible, Tracking, IsChoice, Find, LeftOpen;
    var (prio, allow) := Roles(server, client, serverPreference);
    ghost var groups := Groups(server, flags, client, serverPreference);
    var groupMin: int := -1;
    ghost var best: nat := 0;
    NothingTracked(a, prio, groups, allow);
    var i := 0;
    while i < |prio|
      invariant i <= |prio| && groupMin >= -1 && (!serverPreference ==> groupMin == -1)
      invariant Tracking(a, prio, groups, allow, i, groupMin, best)
    {
      if !groups[i] && (groupMin != -1 || Acceptable(a, prio, allow, i)) {
        TrackClosed(a, prio, groups, allow, i, groupMin, best);
      } else if Acceptable(a, prio, allow, i) {
        TrackMember(a, prio, groups, allow, i, groupMin, best);
      } else {
        TrackSkipped(a, prio, groups, allow, i, groupMin, best);
      }
      var ok := Compatible(a, prio[i]);
      if ok {
        var index := Find(allow, prio[i]);
        if index < |allow| {
          if serverPreference && flags[i] {
            if groupMin == -1 || groupMin > index {
              groupMin, best := index, i;
            }
          } else {
            if groupMin != -1 && groupMin < index {
              index := groupMin;
            }
            return Some(allow[index]);
          }
        }
      }
      if serverPreference && !flags[i] && groupMin != -1 {
        return Some(allow[groupMin]);
      }
      i := i + 1;
    }
    TrackedToEnd(a, prio, groups, allow, groupMin, best);
    ret := None;
  }

  lemma NothingTracked(a: Abilities, prio: seq<Cipher>, flags: seq<bool>, allow: seq<Cipher>)
    requires |flags| == |prio|
    ensures Tracking(a, prio, flags, allow, 0, -1, 0)
  {}

  function Roles(server: seq<Cipher>, client: seq<Cipher>, serverPreference: bool): (seq<Cipher>, seq<Cipher>) {
    if serverPreference then (server, client) else (client, server)
  }

  function Groups(server: seq<Cipher>, flags: seq<bool>, client: seq<Cipher>, serverPreference: bool): (g: seq<bool>)
    requires |flags| == |server|
    ensures |g| == |Roles(server, client, serverPreference).0|
  {
    if serverPreference then flags else seq(|client|, _ => false)
  }

  predicate Running(flags: seq<bool>, j: nat, i: nat)
    requires i <= |flags|
  {
    forall k :: j <= k < i ==> flags[k]
  }

  /** The group closes at i, and `best` is the best acceptable element up to there. */
  lemma BestInGroup(a: Abilities, prio: seq<Cipher>, flags: seq<bool>, allow: seq<Cipher>, i: nat, best: nat)
    requires |flags| == |prio| && best <= i < |prio| && !flags[i]
    requires Acceptable(a, prio, allow, best)
    requires forall j: nat :: j <= i && Acceptable(a, prio, allow, j) ==>
               Find(allow, prio[best]) <= Find(allow, prio[j]) && Running(flags, j, i)
    ensures IsChoice(a, prio, flags, allow, prio[best]) && allow[Find(allow, prio[best])] == prio[best]
    ensures !LeftOpen(flags, best)
  {
    hide Acceptable, Find;
    FindAcceptable(a, prio, allow);
    assert Running(flags, best, i);
    forall j: nat | j < |prio| && Acceptable(a, prio, allow, j)
      ensures if j < best then SameGroup(flags, j, best) && Find(allow, prio[best]) <= Find(allow, prio[j])
              else SameGroup(flags, best, j) ==> Find(allow, prio[best]) <= Find(allow, prio[j])
    {
      if j <= i {
        assert Running(flags, j, i);
      }
    }
    assert Best(a, prio, flags, allow, best);
  }

  /** Closed groups: the call fails exactly when nothing acceptable is shared. */
  lemma ClosedGroupsNeverMiss(a: Abilities, prio: seq<Cipher>, flags: seq<bool>, allow: seq<Cipher>)
    requires |flags| == |prio| && Closed(flags)
    ensures (forall i: nat :: i < |prio| && Acceptable(a, prio, allow, i) ==> LeftOpen(flags, i)) <==>
            (forall i: nat :: i < |prio| ==> !Acceptable(a, prio, allow, i))
  {
    hide Acceptable;
    forall i: nat | i < |prio|
      ensures !LeftOpen(flags, i)
    {
      assert !flags[|flags| - 1];
    }
  }

  /** Any two choices are the same cipher: the declarative choice is unique. */
  lemma ChoiceIsUnique(a: Abilities, prio: seq<Cipher>, flags: seq<bool>, allow: seq<Cipher>, c: Cipher, d: Cipher)
    requires |flags| == |prio|
    requires IsChoice(a, prio, flags, allow, c) && IsChoice(a, prio, flags, allow, d)
    ensures c == d
  {
    hide Compatible;
    var i: nat :| i < |prio| && prio[i] == c && Best(a, prio, flags, allow, i);
    var j: nat :| j < |prio| && prio[j] == d && Best(a, prio, flags, allow, j);
    assert Acceptable(a, prio, allow, i) && Acceptable(a, prio, allow, j);
    assert Find(allow, c) == Find(allow, d);
  }

  function FlagsOf(prefs: seq<(Cipher, bool)>): (flags: seq<bool>)
    ensures |flags| == |prefs|
  {
    seq(|prefs|, i requires 0 <= i < |prefs| => prefs[i].1)
  }

  function CiphersOf(prefs: seq<(Cipher, bool)>): (ciphers: seq<Cipher>)
    ensures |ciphers| == |prefs|
  {
    seq(|prefs|, i requires 0 <= i < |prefs| => prefs[i].0)
  }

  /** Preferences that an accepted configuration string leads to. */
  ghost predicate Configured<T>(t: CipherScanner.Tables, hasAes: bool, s: string, strict: bool,
                                es: seq<Entry<T>>, prefs: seq<(Cipher, bool)>) {
    && CipherConfig.Pristine(es)
    && CipherConfig.ConfigCommands(t, hasAes, s, strict).1
    && prefs == CipherConfig.Preferences(CipherScanner.Run(CipherConfig.ConfigCommands(t, hasAes, s, strict).0, es))
  }

  /** Either side's groups are closed, whoever's order counts. */
  lemma ConfiguredGroupsClose<T>(t: CipherScanner.Tables, hasAes: bool, s: string, strict: bool,
                                 es: seq<Entry<T>>, prefs: seq<(Cipher, bool)>, client: seq<Cipher>,
                                 serverPreference: bool)
    requires Configured(t, hasAes, s, strict, es, prefs)
    ensures Closed(Groups(CiphersOf(prefs), FlagsOf(prefs), client, serverPreference))
  {
    hide CipherConfig.ConfigCommands, CipherScanner.Run, CipherConfig.Preferences, CipherConfig.Pristine;
    CipherConfig.AcceptedConfigIsSound(t, hasAes, s, strict, es);
  }

  /** With the preferences of an accepted configuration string, the call answers with the
      declarative choice, and with none if and only if no acceptable cipher is shared. */
  method ChooseConfigured<T>(t: CipherScanner.Tables, hasAes: bool, s: string, strict: bool,
                             ghost es: seq<Entry<T>>, prefs: seq<(Cipher, bool)>,
                             a: Abilities, client: seq<Cipher>, serverPreference: bool)
    returns (ret: Option<Cipher>)
    requires Configured(t, hasAes, s, strict, es, prefs)
    ensures var (prio, allow) := Roles(CiphersOf(prefs), client, serverPreference);
            var groups := Groups(CiphersOf(prefs), FlagsOf(prefs), client, serverPreference);
            && (ret.Some? ==> IsChoice(a, prio, groups, allow, ret.value))
            && (ret.None? <==> forall i: nat :: i < |prio| ==> !Acceptable(a, prio, allow, i))
  {
    hide Configured, Acceptable, IsChoice;
    ret := ChooseCipher(a, CiphersOf(prefs), FlagsOf(prefs), client, serverPreference);
    ghost var (prio, allow) := Roles(CiphersOf(prefs), client, serverPreference);
    ConfiguredGroupsClose(t, hasAes, s, strict, es, prefs, client, serverPreference);
    ClosedGroupsNeverMiss(a, prio, Groups(CiphersOf(prefs), FlagsOf(prefs), client, serverPreference), allow);
  }

  /** The same of the choice itself: with an accepted configuration, a choice exists if
      and only if an acceptable cipher is shared. */
  lemma ConfiguredServerNeverMisses<T>(t: CipherScanner.Tables, hasAes: bool, s: string, strict: bool,
                                       es: seq<Entry<T>>, prefs: seq<(Cipher, bool)>,
                                       a: Abilities, client: seq<Cipher>, serverPreference: bool)
    requires Configured(t, hasAes, s, strict, es, prefs)
    ensures var (prio, allow) := Roles(CiphersOf(prefs), client, serverPreference);
            var groups := Groups(CiphersOf(prefs), FlagsOf(prefs), client, serverPreference);
            (exists i: nat :: i < |prio| && Acceptable(a, prio, allow, i)) <==>
            (exists i: nat :: i < |prio| && Acceptable(a, prio, allow, i) && !LeftOpen(groups, i))
  {
    hide Configured, Acceptable;
    ghost var (prio, allow) := Roles(CiphersOf(prefs), client, serverPreference);
    ConfiguredGroupsClose(t, hasAes, s, strict, es, prefs, client, serverPreference);
    ClosedGroupsNeverMiss(a, prio, Groups(CiphersOf(prefs), FlagsOf(prefs), client, serverPreference), allow);
  }
}
