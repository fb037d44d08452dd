/**
 What an item of a rule string selects: a cipher by its name, or the ciphers that every
 one of its words selects.
 */
module CipherItems {
  import opened CipherRules
  import opened CipherScanner

  /** The words joined by '+' from position l on, and where they end. */
  function Words(s: string, l: nat): (r: (seq<string>, nat))
    requires l <= |s|
    decreases |s| - l
  {
    var e := WordEnd(s, l);
    if e == l then ([], l)
    else if At(s, e) != '+' then ([s[l..e]], e)
    else
      var (more, end) := Words(s, e + 1);
      ([s[l..e]] + more, end)
  }

  /** The first alias of the name is number j. */
  predicate IsAlias(t: Tables, word: string, j: nat) {
    j < |t.aliases| && t.aliases[j].name == word && forall i :: 0 <= i < j ==> t.aliases[i].name != word
  }

  ghost predicate Known(t: Tables, word: string) {
    exists j: nat :: IsAlias(t, word, j)
  }

  /** Key exchange, authentication, encryption and digest are among the alias's, and the
      least version is its own, if it names one. */
  predicate Matches(a: Alias, c: Cipher) {
    && Hits(a.mkey, c.mkey) && Hits(a.auth, c.auth) && Hits(a.enc, c.enc) && Hits(a.mac, c.mac)
    && (a.minVersion == 0 || MinVersion(c) == a.minVersion)
  }

  ghost predicate WordSelects(t: Tables, word: string, c: Cipher) {
    exists j: nat :: IsAlias(t, word, j) && Matches(t.aliases[j], c)
  }

  /** The first cipher of the name has this id. */
  ghost predicate Names(t: Tables, word: string, id: nat) {
    exists j: nat :: IsCipher(t, word, j) && t.ciphers[j].id == id
  }

  predicate IsCipher(t: Tables, word: string, j: nat) {
    j < |t.ciphers| && t.ciphers[j].name == word && forall i :: 0 <= i < j ==> t.ciphers[i].name != word
  }

  predicate OneBit(x: bv32) {
    x != 0 && x & (x - 1) == 0
  }

  /** The cipher has one algorithm of each kind. */
  predicate OneBits(c: Cipher) {
    OneBit(c.mkey) && OneBit(c.auth) && OneBit(c.enc) && OneBit(c.mac)
  }

  lemma MasksOfOneBit(m: bv32, n: bv32, x: bv32)
    requires x != 0 && x & (x - 1) == 0
    ensures (m & n) & x != 0 <==> m & x != 0 && n & x != 0
  {}

  lemma BothMasks(m: bv32, n: bv32, x: bv32)
    requires OneBit(x)
    ensures Hits(InBoth(m, n), x) <==> Hits(m, x) && Hits(n, x)
  {
    MasksOfOneBit(m, n, x);
  }

  lemma FirstAlias(als: seq<Alias>, word: string)
    ensures var j := AliasIndex(als, word);
            && (forall i :: 0 <= i < j ==> als[i].name != word)
            && (j < |als| ==> als[j].name == word)
  {}

  lemma FirstCipher(cs: seq<Cipher>, word: string)
    ensures (forall i :: 0 <= i < |cs| ==> cs[i].name != word) ==> CipherId(cs, word) == 0
    ensures forall j :: 0 <= j < |cs| && cs[j].name == word && (forall i :: 0 <= i < j ==> cs[i].name != word) ==>
              CipherId(cs, word) == cs[j].id
  {
    if cs != [] && cs[0].name != word {
      FirstCipher(cs[1..], word);
      assert forall i :: 0 < i < |cs| ==> cs[i] == cs[1..][i - 1];
    }
  }

  lemma AliasOf(t: Tables, word: string, c: Cipher)
    ensures var j := AliasIndex(t.aliases, word);
            && (Known(t, word) <==> j < |t.aliases|)
            && (WordSelects(t, word, c) <==> j < |t.aliases| && Matches(t.aliases[j], c))
  {
    hide Matches;
    FirstAlias(t.aliases, word);
    var j := AliasIndex(t.aliases, word);
    assert j < |t.aliases| ==> IsAlias(t, word, j);
    forall k: nat | IsAlias(t, word, k)
      ensures k == j
    {
      assert !(k < j);
    }
  }

  /** One more alias narrows what the item selects by what the alias matches. */
  lemma NarrowedSelects(it: Item, a: Alias, c: Cipher)
    requires it.id == 0 && OneBits(c) && !Narrow(it, a).skip
    ensures Narrow(it, a).id == 0
    ensures Selects(SelectorOf(Narrow(it, a)), c) <==> Selects(SelectorOf(it), c) && Matches(a, c)
  {
    hide OneBits, Hits, MinVersion, InBoth, Under, Selects, Matches, Narrow;
    NarrowFields(it, a);
    SelectsUnder(SelectorOf(it), c);
    SelectsUnder(SelectorOf(Narrow(it, a)), c);
    MatchesUnder(a, c);
    BothUnder(it, a, c);
  }

  lemma NarrowFields(it: Item, a: Alias)
    requires !Narrow(it, a).skip
    ensures var n := Narrow(it, a);
            && n.id == it.id && n.minVersion == a.minVersion && (it.minVersion == 0 || it.minVersion == a.minVersion)
            && SelectorOf(n) == Selector(n.id, InBoth(it.mkey, a.mkey), InBoth(it.auth, a.auth), InBoth(it.enc, a.enc),
                                         InBoth(it.mac, a.mac), n.minVersion, -1)
  {
    hide InBoth;
  }

  predicate Under(mkey: bv32, auth: bv32, enc: bv32, mac: bv32, c: Cipher) {
    Hits(mkey, c.mkey) && Hits(auth, c.auth) && Hits(enc, c.enc) && Hits(mac, c.mac)
  }

  lemma BothUnder(it: Item, a: Alias, c: Cipher)
    requires OneBits(c)
    ensures Under(InBoth(it.mkey, a.mkey), InBoth(it.auth, a.auth), InBoth(it.enc, a.enc), InBoth(it.mac, a.mac), c)
       <==> Under(it.mkey, it.auth, it.enc, it.mac, c) && Under(a.mkey, a.auth, a.enc, a.mac, c)
  {
    hide OneBit, Hits, InBoth;
    BothMasks(it.mkey, a.mkey, c.mkey);
    BothMasks(it.auth, a.auth, c.auth);
    BothMasks(it.enc, a.enc, c.enc);
    BothMasks(it.mac, a.mac, c.mac);
  }

  lemma SelectsUnder(sel: Selector, c: Cipher)
    requires sel.id == 0 && sel.strength < 0
    ensures Selects(sel, c) <==>
              Under(sel.mkey, sel.auth, sel.enc, sel.mac, c)
                && (sel.minVersion != 0 ==> MinVersion(c) == sel.minVersion)
  {
    hide Hits, MinVersion;
  }

  lemma MatchesUnder(a: Alias, c: Cipher)
    ensures Matches(a, c) <==>
              Under(a.mkey, a.auth, a.enc, a.mac, c) && (a.minVersion == 0 || MinVersion(c) == a.minVersion)
  {
    hide Hits, MinVersion;
  }

  /** The word is not taken for the name of a cipher. */
  predicate NotNamed(t: Tables, it: Item, word: string, ch: char) {
    it.multi || ch == '+' || CipherId(t.ciphers, word) == 0
  }

  lemma {:induction false} ItemFrom(t: Tables, s: string, l: nat, it: Item, strict: bool, c: Cipher)
    requires l <= |s| && it.id == 0 && OneBits(c) && ReadItem(t, s, l, it, strict).GoodItem?
    requires NotNamed(t, it, s[l..WordEnd(s, l)], At(s, WordEnd(s, l)))
    ensures var r := ReadItem(t, s, l, it, strict);
            var (words, end) := Words(s, l);
            && r.item.id == 0 && r.pos == end && words != [] && (it.skip ==> r.item.skip)
            && (!r.item.skip ==>
                  (Selects(SelectorOf(r.item), c) <==>
                   Selects(SelectorOf(it), c) && forall w :: w in words ==> WordSelects(t, w, c)))
    decreases |s| - l
  {
    hide OneBits, Selects, SelectorOf, Narrow, AliasIndex, WordSelects, CipherId;
    var e := WordEnd(s, l);
    var word := s[l..e];
    var (next, ok) := ReadWord(t, it, word, At(s, e), strict);
    AliasOf(t, word, c);
    var j := AliasIndex(t.aliases, word);
    SkipStays(it);
    if j < |t.aliases| {
      NarrowKeeps(it, t.aliases[j]);
      if !next.skip {
        NarrowedSelects(it, t.aliases[j], c);
      }
    }
    if At(s, e) == '+' {
      SameSelector(next);
      ItemFrom(t, s, e + 1, next.(multi := true), strict, c);
    }
  }

  lemma SkipStays(it: Item)
    ensures it.(skip := true).id == it.id
  {}

  lemma NarrowKeeps(it: Item, a: Alias)
    ensures Narrow(it, a).id == it.id && Narrow(it, a).multi == it.multi && (it.skip ==> Narrow(it, a).skip)
  {}

  lemma SameSelector(it: Item)
    ensures SelectorOf(it.(multi := true)) == SelectorOf(it)
  {}

  lemma FreshSelectsAll(c: Cipher)
    requires OneBits(c)
    ensures Selects(SelectorOf(FRESH_ITEM), c)
  {
    AllOnes(c.mkey);
    AllOnes(c.auth);
    AllOnes(c.enc);
    AllOnes(c.mac);
  }

  lemma AllOnes(x: bv32)
    ensures ALL_ONES & x == x
  {}

  /** What an item selects. A single word that names a cipher selects the ciphers of that
      cipher's id. Any other item that is not passed over selects exactly the ciphers that
      all its words select; this of ciphers with one algorithm of each kind. */
  lemma ItemSelects(t: Tables, s: string, l: nat, strict: bool, c: Cipher)
    requires l <= |s| && OneBits(c) && ReadItem(t, s, l, FRESH_ITEM, strict).GoodItem?
    ensures var r := ReadItem(t, s, l, FRESH_ITEM, strict);
            var (words, end) := Words(s, l);
            && r.pos == end && words != []
            && (if |words| == 1 && CipherId(t.ciphers, words[0]) != 0 then
                  !r.item.skip && (Selects(SelectorOf(r.item), c) <==> Names(t, words[0], c.id))
                else
                  !r.item.skip ==>
                    (Selects(SelectorOf(r.item), c) <==> forall w :: w in words ==> WordSelects(t, w, c)))
  {
    hide OneBits, WordSelects;
    var e := WordEnd(s, l);
    var word := s[l..e];
    FirstCipher(t.ciphers, word);
    if At(s, e) != '+' && CipherId(t.ciphers, word) != 0 {
      NameIsFirst(t, word);
    } else {
      FreshSelectsAll(c);
      ItemFrom(t, s, l, FRESH_ITEM, strict, c);
      MoreWords(s, l);
    }
  }

  lemma MoreWords(s: string, l: nat)
    requires l <= |s| && WordEnd(s, l) > l
    ensures Words(s, l).0 != [] && Words(s, l).0[0] == s[l..WordEnd(s, l)]
    ensures |Words(s, l).0| == 1 && At(s, WordEnd(s, l)) == '+' ==> Words(s, WordEnd(s, l) + 1).0 == []
  {}

  lemma {:induction false} NameIsFirst(t: Tables, word: string)
    requires CipherId(t.ciphers, word) != 0
    ensures forall id: nat :: Names(t, word, id) <==> id == CipherId(t.ciphers, word)
  {
    FirstCipher(t.ciphers, word);
    var j := CipherIndex(t.ciphers, word);
    assert IsCipher(t, word, j);
  }

  lemma {:induction false} CipherIndex(cs: seq<Cipher>, word: string) returns (j: nat)
    requires CipherId(cs, word) != 0
    ensures j < |cs| && cs[j].name == word && forall i :: 0 <= i < j ==> cs[i].name != word
    decreases |cs|
  {
    if cs[0].name == word {
      j := 0;
    } else {
      var k := CipherIndex(cs[1..], word);
      j := k + 1;
      assert forall i :: 0 < i < j ==> cs[i] == cs[1..][i - 1];
    }
  }

  // ----- items that are passed over ------------------------------------------

  /** The least version that the word names; 0 for none. */
  function VersionOf(t: Tables, word: string): nat {
    var j := AliasIndex(t.aliases, word);
    if j < |t.aliases| then t.aliases[j].minVersion else 0
  }

  function Versions(t: Tables, words: seq<string>): (vs: seq<nat>)
    ensures |vs| == |words|
  {
    seq(|words|, i requires 0 <= i < |words| => VersionOf(t, words[i]))
  }

  /** Behind a word that names a version, all name the same. */
  predicate Agree(vs: seq<nat>) {
    forall i, j :: 0 <= i < j < |vs| && vs[i] != 0 ==> vs[j] == vs[i]
  }

  lemma AgreeStep(v: nat, w: nat, vs: seq<nat>)
    ensures Agree([v, w] + vs) <==> (v == 0 || v == w) && Agree([w] + vs)
  {
    var all, rest := [v, w] + vs, [w] + vs;
    assert all[0] == v && all[1] == w && forall i :: 0 <= i < |rest| ==> all[i + 1] == rest[i];
    if Agree(all) {
      forall i, j | 0 <= i < j < |rest| && rest[i] != 0
        ensures rest[j] == rest[i]
      {
        assert all[i + 1] == rest[i] && all[j + 1] == rest[j];
      }
    }
    if (v == 0 || v == w) && Agree(rest) {
      forall i, j | 0 <= i < j < |all| && all[i] != 0
        ensures all[j] == all[i]
      {
        assert j > 1 ==> all[j] == rest[j - 1] && rest[0] == w;
        assert i > 0 ==> all[i] == rest[i - 1];
      }
    }
  }

  /** All words are known, and agree with each other and with version v. */
  ghost predicate AllGood(t: Tables, v: nat, words: seq<string>) {
    (forall w :: w in words ==> Known(t, w)) && Agree([v] + Versions(t, words))
  }

  lemma GoodStep(t: Tables, v: nat, word: string, more: seq<string>)
    ensures AllGood(t, v, [word] + more) <==>
              Known(t, word) && (v == 0 || v == VersionOf(t, word)) && AllGood(t, VersionOf(t, word), more)
  {
    hide Known, Agree, VersionOf;
    var words := [word] + more;
    assert [v] + Versions(t, words) == [v, VersionOf(t, word)] + Versions(t, more);
    AgreeStep(v, VersionOf(t, word), Versions(t, more));
    assert forall w :: w in words <==> w == word || w in more;
  }

  lemma NoneIsGood(t: Tables, v: nat)
    ensures AllGood(t, v, [])
  {
    assert [v] + Versions(t, []) == [v];
    OneAgrees(v);
  }

  /** One word taken in, by an item that has not been passed over so far. */
  lemma WordStep(t: Tables, it: Item, word: string, ch: char, strict: bool)
    requires it.id == 0 && !it.skip && NotNamed(t, it, word, ch)
    ensures var next := ReadWord(t, it, word, ch, strict).0;
            && next.id == 0 && next.multi == it.multi
            && (next.skip <==> !(Known(t, word) && (it.minVersion == 0 || it.minVersion == VersionOf(t, word))))
            && (!next.skip ==> next.minVersion == VersionOf(t, word))
  {
    hide Known, AliasIndex, CipherId, InBoth;
    KnownExactly(t, word);
  }

  lemma {:induction false} SkippedFrom(t: Tables, s: string, l: nat, it: Item, strict: bool)
    requires l <= |s| && it.id == 0 && !it.skip && ReadItem(t, s, l, it, strict).GoodItem?
    requires NotNamed(t, it, s[l..WordEnd(s, l)], At(s, WordEnd(s, l)))
    ensures ReadItem(t, s, l, it, strict).item.skip <==> !AllGood(t, it.minVersion, Words(s, l).0)
    decreases |s| - l
  {
    hide Known, AllGood, ReadWord, VersionOf;
    var e := WordEnd(s, l);
    var word := s[l..e];
    var (next, ok) := ReadWord(t, it, word, At(s, e), strict);
    WordStep(t, it, word, At(s, e), strict);
    var more := if At(s, e) == '+' then Words(s, e + 1).0 else [];
    assert Words(s, l).0 == [word] + more;
    GoodStep(t, it.minVersion, word, more);
    if At(s, e) != '+' {
      NoneIsGood(t, VersionOf(t, word));
    } else if next.skip {
      StaysSkipped(t, s, e + 1, next.(multi := true), strict);
    } else {
      SkippedFrom(t, s, e + 1, next.(multi := true), strict);
    }
  }

  lemma OneAgrees(v: nat)
    ensures Agree([v])
  {}

  lemma KnownExactly(t: Tables, word: string)
    ensures Known(t, word) <==> AliasIndex(t.aliases, word) < |t.aliases|
  {
    FirstAlias(t.aliases, word);
    var j := AliasIndex(t.aliases, word);
    assert j < |t.aliases| ==> IsAlias(t, word, j);
  }

  lemma {:induction false} StaysSkipped(t: Tables, s: string, l: nat, it: Item, strict: bool)
    requires l <= |s| && it.skip && it.id == 0 && it.multi && ReadItem(t, s, l, it, strict).GoodItem?
    ensures ReadItem(t, s, l, it, strict).item.skip
    decreases |s| - l
  {
    hide AliasIndex, CipherId, InBoth;
    var e := WordEnd(s, l);
    var (next, ok) := ReadWord(t, it, s[l..e], At(s, e), strict);
    if At(s, e) == '+' {
      StaysSkipped(t, s, e + 1, next.(multi := true), strict);
    }
  }

  /** An item that is not the name of a cipher is passed over if and only if one of its
      words is unknown, or one that names a version has another behind it that does not
      name the same. */
  lemma SkippedExactly(t: Tables, s: string, l: nat, strict: bool)
    requires l <= |s| && ReadItem(t, s, l, FRESH_ITEM, strict).GoodItem?
    ensures var words := Words(s, l).0;
            (|words| == 1 ==> CipherId(t.ciphers, words[0]) == 0) ==>
              (ReadItem(t, s, l, FRESH_ITEM, strict).item.skip <==>
               (exists w :: w in words && !Known(t, w)) || !Agree(Versions(t, words)))
  {
    hide Known, Agree, CipherId, Versions, AllGood;
    var words := Words(s, l).0;
    MoreWords(s, l);
    ItemHasWords(t, s, l, strict);
    if |words| == 1 ==> CipherId(t.ciphers, words[0]) == 0 {
      SkippedFrom(t, s, l, FRESH_ITEM, strict);
      StartsGood(t, words);
    }
  }

  lemma StartsGood(t: Tables, words: seq<string>)
    ensures AllGood(t, 0, words) <==> (forall w :: w in words ==> Known(t, w)) && Agree(Versions(t, words))
  {
    hide Known, Agree, VersionOf;
    var vs := Versions(t, words);
    if words == [] {
      assert [0] + vs == [0] && vs == [];
      OneAgrees(0);
      assert Agree(vs) by { NothingAgrees(); }
    } else {
      assert [0] + vs == [0, vs[0]] + vs[1..];
      AgreeStep(0, vs[0], vs[1..]);
      assert [vs[0]] + vs[1..] == vs;
    }
  }

  lemma NothingAgrees()
    ensures Agree([])
  {}

  lemma ItemHasWords(t: Tables, s: string, l: nat, strict: bool)
    requires l <= |s| && ReadItem(t, s, l, FRESH_ITEM, strict).GoodItem?
    ensures var e := WordEnd(s, l);
            Words(s, l).0 != [] && (At(s, e) != '+' ==> |Words(s, l).0| == 1)
  {}

  /** So the order of the words matters: with the version first, the item is passed over. */
  lemma VersionComesLast(t: Tables, version: string, other: string)
    requires VersionOf(t, version) != 0 && VersionOf(t, other) == 0
    ensures !Agree(Versions(t, [version, other])) && Agree(Versions(t, [other, version]))
  {
    var v := VersionOf(t, version);
    var first, last := Versions(t, [version, other]), Versions(t, [other, version]);
    assert first[0] == v && first[1] == 0;
    assert last[0] == 0 && last[1] == v;
  }
}
