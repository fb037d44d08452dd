/**
 A server from its configuration string to the cipher of a handshake.
 */
module ServerChoice {
  import opened Common
  import opened CipherRules
  import opened CipherScanner
  import opened CipherConfig
  import opened CipherList
  import opened CipherBuilder
  import opened CipherChoice
  import opened CipherGroups

  datatype Outcome = Rejected | NoSharedCipher | Chosen(cipher: Cipher)

  /** The answer for these preferences: the declarative choice, or none because no
      acceptable cipher is shared. */
  ghost predicate Answers(a: Abilities, prefs: seq<(Cipher, bool)>, client: seq<Cipher>, serverPreference: bool,
                          o: Outcome)
    requires !o.Rejected?
  {
    var (prio, allow) := Roles(CiphersOf(prefs), client, serverPreference);
    var groups := Groups(CiphersOf(prefs), FlagsOf(prefs), client, serverPreference);
    match o
    case Chosen(c) => IsChoice(a, prio, groups, allow, c)
    case NoSharedCipher => forall i: nat :: i < |prio| ==> !Acceptable(a, prio, allow, i)
  }

  /** Builds the preferences on the heap and chooses from them. The string is rejected
      exactly when its scan is. Otherwise the preferences are active ciphers of the list
      built, grouped exactly as the brackets of the string say, and the cipher chosen is
      the declarative choice; there is none if and only if no acceptable one is shared. */
  method ConfigureAndChoose(t: Tables, supports: Cipher -> bool, hasAes: bool, s: string, strict: bool,
                            a: Abilities, client: seq<Cipher>, serverPreference: bool)
    returns (o: Outcome, prefs: seq<(Cipher, bool)>, ghost start: seq<Entry<Node>>)
    ensures Collected(start, Offered(t.ciphers, supports))
    ensures o.Rejected? <==> !ConfigCommands(t, hasAes, s, strict).1
    ensures !o.Rejected? ==>
              && Configured(t, hasAes, s, strict, start, prefs)
              && GroupsAreBrackets(FlagsOf(prefs), ConfigBrackets(t, hasAes, s, strict, start))
              && Answers(a, prefs, client, serverPreference, o)
  {
    hide Collected, Offered, ConfigCommands, Preferences, Pristine, Run, IsChoice, Acceptable, GroupsAreBrackets,
         ConfigBrackets;
    var built;
    built, start := CreateCipherList(t, supports, hasAes, s, strict);
    if built.None? {
      return Rejected, [], start;
    }
    prefs := built.value;
    ConfiguredGroupsAreBrackets(t, hasAes, s, strict, start, prefs);
    var chosen := ChooseConfigured(t, hasAes, s, strict, start, prefs, a, client, serverPreference);
    o := match chosen case Some(c) => Chosen(c) case None => NoSharedCipher;
  }
}
