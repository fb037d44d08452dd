/**
 The cipher rule language: scanning a rule string into commands, and running the
 commands on a preference list.
 */
module CipherScanner {
  import opened CipherRules
  import opened CipherStrength

  datatype Alias = Alias(name: string, mkey: bv32, auth: bv32, enc: bv32, mac: bv32, minVersion: nat)

  datatype Tables = Tables(ciphers: seq<Cipher>, aliases: seq<Alias>)

  const ALL_ONES: bv32 := 0xffff_ffff

  // ----- characters ----------------------------------------------------------

  /** C strings end in NUL. */
  function At(s: string, l: nat): char {
    if l < |s| then s[l] else '\0'
  }

  predicate IsAlnum(c: char) {
    'a' <= c <= 'z' || 'A' <= c <= 'Z' || '0' <= c <= '9'
  }

  predicate IsWordChar(c: char) {
    IsAlnum(c) || c == '-' || c == '.'
  }

  predicate IsSeparator(c: char) {
    c == ':' || c == ' ' || c == ';' || c == ','
  }

  function WordEnd(s: string, l: nat): (e: nat)
    requires l <= |s|
    ensures l <= e <= |s|
    decreases |s| - l
  {
    if l < |s| && IsWordChar(s[l]) then WordEnd(s, l + 1) else l
  }

  /** The next separator, NUL or end of the string. */
  function SkipItem(s: string, l: nat): (e: nat)
    requires l <= |s|
    ensures l <= e <= |s|
    decreases |s| - l
  {
    if At(s, l) != '\0' && !IsSeparator(At(s, l)) then SkipItem(s, l + 1) else l
  }

  // ----- one item: words joined by '+' ---------------------------------------

  /** The selector as far as it has been read. */
  datatype Item = Item(multi: bool, id: nat, mkey: bv32, auth: bv32, enc: bv32, mac: bv32, minVersion: nat, skip: bool)

  const FRESH_ITEM := Item(false, 0, ALL_ONES, ALL_ONES, ALL_ONES, ALL_ONES, 0, false)

  /** The id of the first cipher with this name; 0 when there is none. */
  function CipherId(cs: seq<Cipher>, name: string): nat {
    if cs == [] then 0 else if cs[0].name == name then cs[0].id else CipherId(cs[1..], name)
  }

  /** The index of the first alias with this name; the length when there is none. */
  function AliasIndex(als: seq<Alias>, name: string): (j: nat)
    ensures j <= |als|
  {
    if als == [] || als[0].name == name then 0 else 1 + AliasIndex(als[1..], name)
  }

  /** The algorithms in both masks. */
  function InBoth(m: bv32, n: bv32): bv32 {
    m & n
  }

  function Narrow(it: Item, a: Alias): Item {
    var clash := it.minVersion != 0 && it.minVersion != a.minVersion;
    Item(it.multi, it.id, InBoth(it.mkey, a.mkey), InBoth(it.auth, a.auth), InBoth(it.enc, a.enc),
         InBoth(it.mac, a.mac), if clash then it.minVersion else a.minVersion, it.skip || clash)
  }

  /** Takes in one word, followed by the character ch; the flag is false on error. */
  function ReadWord(t: Tables, it: Item, word: string, ch: char, strict: bool): (Item, bool) {
    var id := if !it.multi && ch != '+' then
                var found := CipherId(t.ciphers, word);
                if found != 0 then found else it.id
              else it.id;
    if id != 0 then (it.(id := id), true)
    else
      var j := AliasIndex(t.aliases, word);
      if j < |t.aliases| then (Narrow(it, t.aliases[j]), true)
      else (it.(skip := true), !strict)
  }

  datatype ItemResult = BadItem | GoodItem(item: Item, pos: nat)

  function ReadItem(t: Tables, s: string, l: nat, it: Item, strict: bool): (r: ItemResult)
    requires l <= |s|
    ensures r.GoodItem? ==> l < r.pos <= |s|
    decreases |s| - l
  {
    var e := WordEnd(s, l);
    if e == l then BadItem
    else
      var (next, ok) := ReadWord(t, it, s[l..e], At(s, e), strict);
      if !ok then BadItem
      else if At(s, e) != '+' then GoodItem(next, e)
      else ReadItem(t, s, e + 1, next.(multi := true), strict)
  }

  // ----- the rule string -----------------------------------------------------

  datatype Command = ApplyRule(rule: Rule) | SortByStrength | CloseGroup

  datatype Step = Finished | Bad | Continue(pos: nat, inGroup: bool, hasGroup: bool, commands: seq<Command>)

  datatype Operator = Plain(kind: Kind) | Special

  function SelectorOf(it: Item): Selector {
    Selector(it.id, it.mkey, it.auth, it.enc, it.mac, it.minVersion, -1)
  }

  function ScanRule(t: Tables, s: string, l: nat, strict: bool, op: Operator, inGroup: bool, hasGroup: bool): (r: Step)
    requires l <= |s|
    ensures !r.Finished?
    ensures r.Continue? ==> l < r.pos <= |s| && r.inGroup == inGroup && r.hasGroup == hasGroup
  {
    if op.Special? then
      var e := WordEnd(s, l);
      if s[l..e] != "STRENGTH" then Bad
      else Continue(SkipItem(s, e), inGroup, hasGroup, [SortByStrength])
    else
      match ReadItem(t, s, l, FRESH_ITEM, strict)
      case BadItem => Bad
      case GoodItem(it, e) =>
        Continue(e, inGroup, hasGroup,
                 if it.skip then [] else [ApplyRule(Rule(op.kind, SelectorOf(it), inGroup))])
  }

  function OperatorAt(ch: char): (op: Operator)
  {
    if ch == '-' then Plain(Del) else if ch == '+' then Plain(Ord) else if ch == '!' then Plain(Kill)
    else if ch == '@' then Special else Plain(Add)
  }

  predicate IsOperator(ch: char) {
    ch == '-' || ch == '+' || ch == '!' || ch == '@'
  }

  /** One turn of the outer loop, at position l. */
  function ScanStep(t: Tables, s: string, l: nat, strict: bool, inGroup: bool, hasGroup: bool): (r: Step)
    requires l <= |s|
    ensures r.Continue? ==> l < r.pos <= |s|
  {
    var ch := At(s, l);
    if ch == '\0' then Finished
    else if inGroup then
      if ch == ']' then Continue(l + 1, false, hasGroup, [CloseGroup])
      else if ch == '|' then Continue(l + 1, inGroup, hasGroup, [])
      else if !IsAlnum(ch) then Bad
      else ScanRule(t, s, l, strict, Plain(Add), inGroup, hasGroup)
    else if ch == '[' then Continue(l + 1, true, true, [])
    else if hasGroup && IsOperator(ch) then Bad
    else if IsSeparator(ch) then Continue(l + 1, inGroup, hasGroup, [])
    else ScanRule(t, s, if IsOperator(ch) then l + 1 else l, strict, OperatorAt(ch), inGroup, hasGroup)
  }

  /** The commands a rule string amounts to, up to the first error if there is one. */
  function Scan(t: Tables, s: string, l: nat, strict: bool, inGroup: bool, hasGroup: bool): (seq<Command>, bool)
    requires l <= |s|
    decreases |s| - l
  {
    match ScanStep(t, s, l, strict, inGroup, hasGroup)
    case Finished => ([], !inGroup)
    case Bad => ([], false)
    case Continue(pos, ig, hg, commands) =>
      var (more, ok) := Scan(t, s, pos, strict, ig, hg);
      (commands + more, ok)
  }

  // ----- running commands ----------------------------------------------------

  function Close<T>(es: seq<Entry<T>>): seq<Entry<T>> {
    if es == [] then [] else es[|es| - 1 := es[|es| - 1].(inGroup := false)]
  }

  function RunOne<T>(c: Command, es: seq<Entry<T>>): seq<Entry<T>> {
    match c
    case ApplyRule(r) => Apply(r, es)
    case SortByStrength => StrengthSort(es)
    case CloseGroup => Close(es)
  }

  function Run<T>(cs: seq<Command>, es: seq<Entry<T>>): seq<Entry<T>>
    decreases |cs|
  {
    if cs == [] then es else Run(cs[1..], RunOne(cs[0], es))
  }

  lemma {:induction false} RunConcat<T>(a: seq<Command>, b: seq<Command>, es: seq<Entry<T>>)
    ensures Run(a + b, es) == Run(b, Run(a, es))
    decreases |a|
  {
    hide RunOne;
    if a == [] {
      assert a + b == b;
    } else {
      assert (a + b)[1..] == a[1..] + b;
      RunConcat(a[1..], b, RunOne(a[0], es));
    }
  }
}
