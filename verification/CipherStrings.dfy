/**
 The rule language as text: what words and separators are made of, which items are
 rejected, what stands in brackets, and that a DEFAULT prefix means the item ALL.
 */
module CipherStrings {
  import opened CipherRules
  import opened CipherScanner
  import opened CipherConfig
  import opened CipherItems
  import opened CipherMeaning

  const UPPER: string := "ABCDEFGHIJKLMNOPQRSTUVWXYZ"
  const LOWER: string := "abcdefghijklmnopqrstuvwxyz"
  const DIGITS: string := "0123456789"
  const SEPARATORS: string := ":;, "

  // ----- words and separators ------------------------------------------------

  predicate InWord(ch: char) {
    ch in UPPER || ch in LOWER || ch in DIGITS || ch == '-' || ch == '.'
  }

  lemma IsUpper(ch: char)
    ensures ch in UPPER <==> 'A' <= ch <= 'Z'
  {
    if 'A' <= ch <= 'Z' {
      assert UPPER[ch as int - 'A' as int] == ch;
    }
  }

  lemma IsLower(ch: char)
    ensures ch in LOWER <==> 'a' <= ch <= 'z'
  {
    if 'a' <= ch <= 'z' {
      assert LOWER[ch as int - 'a' as int] == ch;
    }
  }

  lemma IsDigit(ch: char)
    ensures ch in DIGITS <==> '0' <= ch <= '9'
  {
    if '0' <= ch <= '9' {
      assert DIGITS[ch as int - '0' as int] == ch;
    }
  }

  lemma InWordExactly(ch: char)
    ensures IsWordChar(ch) <==> InWord(ch)
  {
    hide UPPER, LOWER, DIGITS;
    IsUpper(ch);
    IsLower(ch);
    IsDigit(ch);
  }

  lemma Separates(ch: char)
    ensures IsSeparator(ch) <==> ch in SEPARATORS
  {}

  /** A word goes on exactly as long as there are such characters. */
  lemma {:induction false} WordExactly(s: string, l: nat, e: nat)
    requires l <= e <= |s|
    ensures WordEnd(s, l) == e <==>
              (forall i :: l <= i < e ==> InWord(s[i])) && (e < |s| ==> !InWord(s[e]))
    decreases |s| - l
  {
    hide InWord;
    if l < |s| {
      InWordExactly(s[l]);
      if l < e {
        WordExactly(s, l + 1, e);
      }
    }
  }

  /** Colons, semicolons, commas and blanks change nothing, wherever they stand. */
  lemma SpacesPass<T>(t: Tables, s: string, strict: bool, l: nat, k: nat, es: seq<Entry<T>>)
    requires l <= k <= |s| && forall i :: l <= i < k ==> s[i] in SEPARATORS
    ensures Comes(t, s, strict, l, k) && ListAt(t, s, strict, l, k, es) == es
  {
    hide IsSeparator, ListAt, Comes;
    forall i | l <= i < k
      ensures IsSeparator(s[i])
    {
      Separates(s[i]);
    }
    SeparatorsPass(t, s, strict, l, k, es);
  }

  // ----- items that are rejected ---------------------------------------------

  /** At the beginning or behind a '+' no word follows. */
  predicate LacksWord(s: string, l: nat)
    requires l <= |s|
    decreases |s| - l
  {
    var e := WordEnd(s, l);
    e == l || (At(s, e) == '+' && LacksWord(s, e + 1))
  }

  lemma {:induction false} RejectedFrom(t: Tables, s: string, l: nat, it: Item, strict: bool)
    requires l <= |s| && it.id == 0 && NotNamed(t, it, s[l..WordEnd(s, l)], At(s, WordEnd(s, l)))
    ensures ReadItem(t, s, l, it, strict).BadItem? <==>
              LacksWord(s, l) || (strict && exists w :: w in Words(s, l).0 && !Known(t, w))
    decreases |s| - l
  {
    hide Known, CipherId, AliasIndex, Narrow;
    var e := WordEnd(s, l);
    if e > l {
      var word := s[l..e];
      var (next, ok) := ReadWord(t, it, word, At(s, e), strict);
      KnownExactly(t, word);
      WordTaken(t, it, word, At(s, e), strict);
      assert word in Words(s, l).0;
      if ok && At(s, e) == '+' {
        RejectedFrom(t, s, e + 1, next.(multi := true), strict);
        assert Words(s, l).0 == [word] + Words(s, e + 1).0;
      }
    }
  }

  lemma WordTaken(t: Tables, it: Item, word: string, ch: char, strict: bool)
    requires it.id == 0 && NotNamed(t, it, word, ch)
    ensures var (next, ok) := ReadWord(t, it, word, ch, strict);
            next.id == 0 && (ok <==> Known(t, word) || !strict)
  {
    hide Known, CipherId, AliasIndex;
    KnownExactly(t, word);
  }

  ghost predicate HasUnknown(t: Tables, words: seq<string>) {
    exists w :: w in words && !Known(t, w)
  }

  /** An item is rejected if and only if a word is missing, or in strict mode one of its
      words is unknown; a single one may be the name of a cipher. */
  lemma RejectedExactly(t: Tables, s: string, l: nat, strict: bool)
    requires l <= |s|
    ensures var words := Words(s, l).0;
            ReadItem(t, s, l, FRESH_ITEM, strict).BadItem? <==>
              || LacksWord(s, l)
              || (strict && !(|words| == 1 && CipherId(t.ciphers, words[0]) != 0) && HasUnknown(t, words))
  {
    hide Known, CipherId, AliasIndex;
    var e := WordEnd(s, l);
    if e > l {
      MoreWords(s, l);
      if At(s, e) == '+' && !LacksWord(s, e + 1) {
        assert WordEnd(s, e + 1) > e + 1;
        MoreWords(s, e + 1);
      }
      if At(s, e) == '+' || CipherId(t.ciphers, s[l..e]) == 0 {
        RejectedFrom(t, s, l, FRESH_ITEM, strict);
      }
    }
  }

  // ----- brackets ------------------------------------------------------------

  /** A bracket with two items: both are added, as one group that ends at the bracket. */
  lemma BracketMeans(t: Tables, s: string, l: nat, strict: bool, hasGroup: bool, first: Selector, e: nat,
                     second: Selector, end: nat)
    requires l < |s| && s[l] == '[' && ItemAt(t, s, l + 1, strict, first, e) && IsAlnum(At(s, l + 1))
    requires e < |s| && s[e] == '|' && ItemAt(t, s, e + 1, strict, second, end) && IsAlnum(At(s, e + 1))
    requires end < |s| && s[end] == ']'
    ensures var (more, ok) := Scan(t, s, end + 1, strict, false, true);
            Scan(t, s, l, strict, false, hasGroup)
            == ([ApplyRule(Rule(Add, first, true)), ApplyRule(Rule(Add, second, true)), CloseGroup] + more, ok)
  {
    hide Scan, ReadItem;
    var (more, ok) := Scan(t, s, end + 1, strict, false, true);
    Entered(t, s, l, strict, hasGroup);
    GroupItem(t, s, l + 1, strict, first, e);
    Bar(t, s, e, strict);
    GroupItem(t, s, e + 1, strict, second, end);
    Closed(t, s, end, strict);
    var one, two := [ApplyRule(Rule(Add, first, true))], [ApplyRule(Rule(Add, second, true))];
    assert one + (two + ([CloseGroup] + more)) == [one[0], two[0], CloseGroup] + more;
  }

  lemma Entered(t: Tables, s: string, l: nat, strict: bool, hasGroup: bool)
    requires l < |s| && s[l] == '['
    ensures Scan(t, s, l, strict, false, hasGroup) == Scan(t, s, l + 1, strict, true, true)
  {
    hide ReadItem;
    var more := Scan(t, s, l + 1, strict, true, true).0;
    assert [] + more == more;
  }

  lemma Bar(t: Tables, s: string, l: nat, strict: bool)
    requires l < |s| && s[l] == '|'
    ensures Scan(t, s, l, strict, true, true) == Scan(t, s, l + 1, strict, true, true)
  {
    hide ReadItem;
    var more := Scan(t, s, l + 1, strict, true, true).0;
    assert [] + more == more;
  }

  lemma Closed(t: Tables, s: string, l: nat, strict: bool)
    requires l < |s| && s[l] == ']'
    ensures var (more, ok) := Scan(t, s, l + 1, strict, false, true);
            Scan(t, s, l, strict, true, true) == ([CloseGroup] + more, ok)
  {
    hide ReadItem;
  }

  lemma GroupItem(t: Tables, s: string, l: nat, strict: bool, sel: Selector, e: nat)
    requires l < |s| && IsAlnum(s[l]) && ItemAt(t, s, l, strict, sel, e)
    ensures e <= |s|
    ensures var (more, ok) := Scan(t, s, e, strict, true, true);
            Scan(t, s, l, strict, true, true) == ([ApplyRule(Rule(Add, sel, true))] + more, ok)
  {
    hide ReadItem;
  }

  // ----- the scan looks only ahead -------------------------------------------

  lemma {:induction false} WordEndAhead(a: string, s: string, l: nat)
    requires l <= |s|
    ensures WordEnd(a + s, |a| + l) == |a| + WordEnd(s, l)
    decreases |s| - l
  {
    if l < |s| {
      assert (a + s)[|a| + l] == s[l];
      if IsWordChar(s[l]) {
        WordEndAhead(a, s, l + 1);
      }
    }
  }

  lemma {:induction false} SkipItemAhead(a: string, s: string, l: nat)
    requires l <= |s|
    ensures SkipItem(a + s, |a| + l) == |a| + SkipItem(s, l)
    decreases |s| - l
  {
    AtAhead(a, s, l);
    if At(s, l) != '\0' && !IsSeparator(At(s, l)) {
      SkipItemAhead(a, s, l + 1);
    }
  }

  lemma AtAhead(a: string, s: string, l: nat)
    ensures At(a + s, |a| + l) == At(s, l)
  {}

  lemma {:induction false} ReadItemAhead(t: Tables, a: string, s: string, l: nat, it: Item, strict: bool)
    requires l <= |s|
    ensures var r := ReadItem(t, s, l, it, strict);
            ReadItem(t, a + s, |a| + l, it, strict) == if r.BadItem? then BadItem else r.(pos := |a| + r.pos)
    decreases |s| - l
  {
    hide WordEnd, ReadWord;
    WordEndAhead(a, s, l);
    var e := WordEnd(s, l);
    AtAhead(a, s, e);
    assert (a + s)[|a| + l..|a| + e] == s[l..e];
    if e > l && At(s, e) == '+' {
      var (next, ok) := ReadWord(t, it, s[l..e], At(s, e), strict);
      ReadItemAhead(t, a, s, e + 1, next.(multi := true), strict);
    }
  }

  lemma ScanStepAhead(t: Tables, a: string, s: string, l: nat, strict: bool, inGroup: bool, hasGroup: bool)
    requires l <= |s|
    ensures var r := ScanStep(t, s, l, strict, inGroup, hasGroup);
            ScanStep(t, a + s, |a| + l, strict, inGroup, hasGroup)
            == if r.Continue? then r.(pos := |a| + r.pos) else r
  {
    hide ScanRule;
    AtAhead(a, s, l);
    var ch := At(s, l);
    if ch != '\0' {
      var start := if !inGroup && IsOperator(ch) then l + 1 else l;
      ScanRuleAhead(t, a, s, start, strict, if inGroup then Plain(Add) else OperatorAt(ch), inGroup, hasGroup);
    }
  }

  lemma ScanRuleAhead(t: Tables, a: string, s: string, l: nat, strict: bool, op: Operator, inGroup: bool,
                      hasGroup: bool)
    requires l <= |s|
    ensures var r := ScanRule(t, s, l, strict, op, inGroup, hasGroup);
            ScanRule(t, a + s, |a| + l, strict, op, inGroup, hasGroup)
            == if r.Continue? then r.(pos := |a| + r.pos) else r
  {
    hide WordEnd, ReadItem, SkipItem, IsSeparator;
    if op.Special? {
      WordEndAhead(a, s, l);
      var e := WordEnd(s, l);
      assert (a + s)[|a| + l..|a| + e] == s[l..e];
      SkipItemAhead(a, s, e);
    } else {
      ReadItemAhead(t, a, s, l, FRESH_ITEM, strict);
    }
  }

  lemma {:induction false} ScanAhead(t: Tables, a: string, s: string, l: nat, strict: bool, inGroup: bool,
                                     hasGroup: bool)
    requires l <= |s|
    ensures Scan(t, a + s, |a| + l, strict, inGroup, hasGroup) == Scan(t, s, l, strict, inGroup, hasGroup)
    decreases |s| - l
  {
    hide ScanStep;
    ScanStepAhead(t, a, s, l, strict, inGroup, hasGroup);
    var r := ScanStep(t, s, l, strict, inGroup, hasGroup);
    if r.Continue? {
      ScanAhead(t, a, s, r.pos, strict, r.inGroup, r.hasGroup);
    }
  }

  // ----- DEFAULT -------------------------------------------------------------

  /** A prefix DEFAULT, alone or before a colon, means the item ALL in its place. */
  lemma DefaultMeansAll(t: Tables, hasAes: bool, r: string, strict: bool)
    requires r == "" || r[0] == ':'
    ensures ConfigCommands(t, hasAes, "DEFAULT" + r, strict) == ConfigCommands(t, hasAes, "ALL" + r, strict)
  {
    hide Scan, InitialCommands;
    var s, u := "DEFAULT" + r, "ALL" + r;
    assert s[..7] == "DEFAULT" && (|u| >= 7 ==> u[0] != 'D');
    assert StartsWithDefault(s) && !StartsWithDefault(u);
    AllAlone(t, r, strict);
    if r == "" {
      assert AfterDefault(s) == "";
    } else {
      assert At(s, 7) == ':' && AfterDefault(s) == r[1..];
      ColonPasses(t, r, strict);
    }
    var all := Scan(t, "ALL", 0, strict, false, false).0;
    var rest := Scan(t, AfterDefault(s), 0, strict, false, false).0;
    assert InitialCommands(hasAes) + all + rest == InitialCommands(hasAes) + (all + rest);
    assert InitialCommands(hasAes) + [] + all == InitialCommands(hasAes) + all;
    assert InitialCommands(hasAes) + [] + (all + rest) == InitialCommands(hasAes) + (all + rest);
  }

  lemma ColonPasses(t: Tables, r: string, strict: bool)
    requires r != "" && r[0] == ':'
    ensures Scan(t, r, 0, strict, false, false) == Scan(t, r[1..], 0, strict, false, false)
  {
    hide ReadItem;
    assert [r[0]] + r[1..] == r;
    ScanAhead(t, [r[0]], r[1..], 0, strict, false, false);
    var more := Scan(t, r, 1, strict, false, false);
    assert [] + more.0 == more.0;
  }

  /** The scan of ALL before anything else. */
  lemma AllAlone(t: Tables, r: string, strict: bool)
    requires r == "" || r[0] == ':'
    ensures var (all, ok) := Scan(t, "ALL", 0, strict, false, false);
            var (rest, good) := Scan(t, r, 0, strict, false, false);
            Scan(t, "ALL" + r, 0, strict, false, false) == if ok then (all + rest, good) else (all, false)
  {
    hide ReadWord, Scan, ReadItem, WordEnd;
    var u := "ALL" + r;
    AllIsWord(r);
    AllIsWord("");
    assert "ALL" + "" == "ALL";
    SameWord(t, "ALL", At(u, 3), strict);
    ScanAhead(t, "ALL", r, 0, strict, false, false);
    OneItem(t, u, strict);
    OneItem(t, "ALL", strict);
    NothingMore(t, "ALL", strict);
    assert At("ALL", 3) == '\0';
    var (item, ok) := ReadWord(t, FRESH_ITEM, "ALL", '\0', strict);
    var first := if item.skip then [] else [ApplyRule(Rule(Add, SelectorOf(item), false))];
    assert first + [] == first;
    assert Scan(t, u, 3, strict, false, false) == Scan(t, r, 0, strict, false, false);
  }

  lemma AllIsWord(r: string)
    requires r == "" || r[0] == ':'
    ensures var u := "ALL" + r; u[..3] == "ALL" && WordEnd(u, 0) == 3 && At(u, 3) != '+'
  {
    var u := "ALL" + r;
    assert IsWordChar(u[0]) && IsWordChar(u[1]) && IsWordChar(u[2]);
    assert WordEnd(u, 3) == 3 && WordEnd(u, 2) == 3 && WordEnd(u, 1) == 3;
  }

  lemma SameWord(t: Tables, word: string, ch: char, strict: bool)
    requires ch != '+'
    ensures ReadWord(t, FRESH_ITEM, word, ch, strict) == ReadWord(t, FRESH_ITEM, word, '\0', strict)
  {}

  lemma NothingMore(t: Tables, s: string, strict: bool)
    ensures Scan(t, s, |s|, strict, false, false) == ([], true)
  {}

  /** A string that begins with the word ALL and no '+' behind it. */
  lemma OneItem(t: Tables, u: string, strict: bool)
    requires |u| >= 3 && u[..3] == "ALL" && WordEnd(u, 0) == 3 && At(u, 3) != '+'
    ensures var (item, ok) := ReadWord(t, FRESH_ITEM, "ALL", At(u, 3), strict);
            var (more, good) := Scan(t, u, 3, strict, false, false);
            Scan(t, u, 0, strict, false, false)
            == if !ok then ([], false)
               else ((if item.skip then [] else [ApplyRule(Rule(Add, SelectorOf(item), false))]) + more, good)
  {
    hide ReadWord;
    assert u[0] == 'A' && u[0..3] == "ALL";
  }

  /** Without that prefix the rules stand for themselves. */
  lemma NoDefault(t: Tables, hasAes: bool, s: string, strict: bool)
    requires !("DEFAULT" <= s)
    ensures AfterDefault(s) == s
    ensures ConfigCommands(t, hasAes, s, strict)
         == (InitialCommands(hasAes) + Scan(t, s, 0, strict, false, false).0, Scan(t, s, 0, strict, false, false).1)
  {
    hide Scan, InitialCommands;
    assert InitialCommands(hasAes) + [] == InitialCommands(hasAes);
  }
}
