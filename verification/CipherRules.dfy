/**
 The cipher preference list as a value: an ordered list of ciphers, each active
 or not and each open or closed in its preference group, and what one rule does
 to it. The type parameter tags entries; the linked list tags them with its nodes.
 */
module CipherRules {

  // ----- ciphers and selectors -----------------------------------------------

  const KEX_GENERIC: bv32 := 0x10
  const AUTH_GENERIC: bv32 := 0x8
  const ENC_3DES: bv32 := 0x1
  const ENC_AES128: bv32 := 0x2
  const ENC_AES256: bv32 := 0x4
  const ENC_AES128GCM: bv32 := 0x8
  const ENC_AES256GCM: bv32 := 0x10
  const ENC_CHACHA20POLY1305: bv32 := 0x40
  const SSL3_VERSION: nat := 0x0300
  const TLS1_2_VERSION: nat := 0x0303
  const TLS1_3_VERSION: nat := 0x0304

  datatype Cipher = Cipher(name: string, id: nat, mkey: bv32, auth: bv32, enc: bv32, mac: bv32, defaultPrf: bool)

  function MinVersion(c: Cipher): nat {
    if c.mkey == KEX_GENERIC || c.auth == AUTH_GENERIC then TLS1_3_VERSION
    else if !c.defaultPrf then TLS1_2_VERSION
    else SSL3_VERSION
  }

  function MaxVersion(c: Cipher): nat {
    if c.mkey == KEX_GENERIC || c.auth == AUTH_GENERIC then TLS1_3_VERSION else TLS1_2_VERSION
  }

  /** Strength in bits; an unknown algorithm counts as none. */
  function StrengthBits(c: Cipher): nat {
    if c.enc == ENC_AES128 || c.enc == ENC_AES128GCM then 128
    else if c.enc == ENC_AES256 || c.enc == ENC_AES256GCM || c.enc == ENC_CHACHA20POLY1305 then 256
    else if c.enc == ENC_3DES then 112
    else 0
  }

  /** Which ciphers a rule is about. A negative strength means "any". */
  datatype Selector = Selector(id: nat, mkey: bv32, auth: bv32, enc: bv32, mac: bv32, minVersion: nat, strength: int)

  /** The mask has the algorithm among its bits. */
  predicate Hits(mask: bv32, algorithm: bv32) {
    mask & algorithm != 0
  }

  predicate Selects(s: Selector, c: Cipher) {
    if s.id != 0 then s.id == c.id
    else if s.strength >= 0 then s.strength == StrengthBits(c)
    else
      && Hits(s.mkey, c.mkey) && Hits(s.auth, c.auth) && Hits(s.enc, c.enc) && Hits(s.mac, c.mac)
      && (s.minVersion != 0 ==> MinVersion(c) == s.minVersion)
  }

  /** The early exit of the rule engine. */
  predicate MatchesNothing(s: Selector) {
    s.id == 0 && s.strength == -1 && s.minVersion == 0 && (s.mkey == 0 || s.auth == 0 || s.enc == 0 || s.mac == 0)
  }

  lemma EarlyExitIsSound(s: Selector, c: Cipher)
    requires MatchesNothing(s)
    ensures !Selects(s, c)
  {}

  // ----- rules on lists ------------------------------------------------------

  datatype Kind = Add | Kill | Del | Ord

  datatype Rule = Rule(kind: Kind, sel: Selector, inGroup: bool)

  datatype Entry<+T> = Entry(tag: T, cipher: Cipher, active: bool, inGroup: bool)

  /** Whether the rule takes this entry out of its place. */
  predicate Moves<T>(r: Rule, e: Entry<T>) {
    && Selects(r.sel, e.cipher)
    && match r.kind
       case Add => !e.active
       case Ord => e.active
       case Del => e.active
       case Kill => true
  }

  /** What becomes of an entry that is moved. */
  function Touch<T>(r: Rule, e: Entry<T>): Entry<T> {
    match r.kind
    case Add => e.(active := true, inGroup := r.inGroup)
    case Ord => e.(inGroup := false)
    case Del => e.(active := false, inGroup := false)
    case Kill => e.(active := false)
  }

  function Kept<T>(r: Rule, es: seq<Entry<T>>): seq<Entry<T>> {
    if es == [] then []
    else (if Moves(r, es[0]) then [] else [es[0]]) + Kept(r, es[1..])
  }

  function Moved<T>(r: Rule, es: seq<Entry<T>>): seq<Entry<T>> {
    if es == [] then []
    else (if Moves(r, es[0]) then [Touch(r, es[0])] else []) + Moved(r, es[1..])
  }

  /** ADD and ORD send the entries they move to the tail, DEL to the head, both in
      their old order; KILL drops them. All other entries keep their order. */
  function Apply<T>(r: Rule, es: seq<Entry<T>>): seq<Entry<T>> {
    match r.kind
    case Kill => Kept(r, es)
    case Del => Moved(r, es) + Kept(r, es)
    case _ => Kept(r, es) + Moved(r, es)
  }

  lemma {:induction false} KeptAppend<T>(r: Rule, a: seq<Entry<T>>, b: seq<Entry<T>>)
    ensures Kept(r, a + b) == Kept(r, a) + Kept(r, b)
    ensures Moved(r, a + b) == Moved(r, a) + Moved(r, b)
    decreases |a|
  {
    if a == [] {
      assert a + b == b;
    } else {
      assert (a + b)[1..] == a[1..] + b;
      KeptAppend(r, a[1..], b);
    }
  }

  lemma KeptOne<T>(r: Rule, e: Entry<T>)
    ensures Kept(r, [e]) == if Moves(r, e) then [] else [e]
    ensures Moved(r, [e]) == if Moves(r, e) then [Touch(r, e)] else []
  {
    assert [e][1..] == [];
  }

  // ----- walking the list while it is rearranged -----------------------------

  /** One visit: what the walk does when it stands on the k-th entry. */
  function Visit<T>(r: Rule, es: seq<Entry<T>>, k: nat): seq<Entry<T>>
    requires k < |es|
  {
    if !Moves(r, es[k]) then es
    else
      var others := es[..k] + es[k + 1..];
      match r.kind
      case Kill => others
      case Del => [Touch(r, es[k])] + others
      case _ => others + [Touch(r, es[k])]
  }

  /** The i-th entry visited: DEL walks backwards. */
  function Visited<T>(r: Rule, orig: seq<Entry<T>>, i: nat): Entry<T>
    requires i < |orig|
  {
    if r.kind.Del? then orig[|orig| - 1 - i] else orig[i]
  }

  /** The list after i visits. */
  function Progress<T>(r: Rule, orig: seq<Entry<T>>, i: nat): seq<Entry<T>>
    requires i <= |orig|
  {
    var j := |orig| - i;
    match r.kind
    case Del => Moved(r, orig[j..]) + orig[..j] + Kept(r, orig[j..])
    case Kill => Kept(r, orig[..i]) + orig[i..]
    case _ => Kept(r, orig[..i]) + orig[i..] + Moved(r, orig[..i])
  }

  /** Where the next entry to visit stands after i visits. */
  function Standing<T>(r: Rule, orig: seq<Entry<T>>, i: nat): nat
    requires i < |orig|
  {
    var j := |orig| - i;
    if r.kind.Del? then |Moved(r, orig[j..])| + j - 1 else |Kept(r, orig[..i])|
  }

  lemma ProgressStarts<T>(r: Rule, orig: seq<Entry<T>>)
    ensures Progress(r, orig, 0) == orig
  {}

  lemma ProgressEnds<T>(r: Rule, orig: seq<Entry<T>>)
    ensures Progress(r, orig, |orig|) == Apply(r, orig)
  {
    assert orig[..|orig|] == orig && orig[0..] == orig;
  }

  lemma StandsOnVisited<T>(r: Rule, orig: seq<Entry<T>>, i: nat)
    requires i < |orig|
    ensures Standing(r, orig, i) < |Progress(r, orig, i)|
    ensures Progress(r, orig, i)[Standing(r, orig, i)] == Visited(r, orig, i)
  {}

  /** The neighbour the walk goes to next is the next one of the original list. */
  lemma NeighbourIsNext<T>(r: Rule, orig: seq<Entry<T>>, i: nat)
    requires i + 1 < |orig|
    ensures var k, es := Standing(r, orig, i), Progress(r, orig, i);
            if r.kind.Del? then 0 < k <= |es| && es[k - 1] == Visited(r, orig, i + 1)
            else k + 1 < |es| && es[k + 1] == Visited(r, orig, i + 1)
  {}

  lemma VisitMiddle<T>(r: Rule, a: seq<Entry<T>>, x: Entry<T>, c: seq<Entry<T>>)
    ensures Visit(r, a + [x] + c, |a|) ==
            if !Moves(r, x) then a + [x] + c
            else if r.kind.Kill? then a + c
            else if r.kind.Del? then [Touch(r, x)] + (a + c)
            else a + c + [Touch(r, x)]
  {
    hide Moves, Touch;
    var es := a + [x] + c;
    assert es[..|a|] == a && es[|a|] == x && es[|a| + 1..] == c;
  }

  lemma ProgressForward<T>(r: Rule, orig: seq<Entry<T>>, i: nat)
    requires i < |orig| && !r.kind.Del?
    ensures Standing(r, orig, i) < |Progress(r, orig, i)|
    ensures Progress(r, orig, i + 1) == Visit(r, Progress(r, orig, i), Standing(r, orig, i))
  {
    hide Moves, Touch, Visit, Kept, Moved;
    var x, tail := orig[i], orig[i + 1..];
    var kept, moved := Kept(r, orig[..i]), Moved(r, orig[..i]);
    assert orig[..i + 1] == orig[..i] + [x];
    assert orig[i..] == [x] + tail;
    KeptAppend(r, orig[..i], [x]);
    KeptOne(r, x);
    MovedLast(kept, [], x, tail);
    if r.kind.Kill? {
      assert Progress(r, orig, i) == kept + [x] + tail;
      VisitMiddle(r, kept, x, tail);
    } else {
      var c := tail + moved;
      assert kept + ([x] + tail) + moved == kept + [x] + c;
      assert kept + c + [Touch(r, x)] == kept + tail + (moved + [Touch(r, x)]);
      VisitMiddle(r, kept, x, c);
    }
  }

  lemma ProgressBackward<T>(r: Rule, orig: seq<Entry<T>>, i: nat)
    requires i < |orig| && r.kind.Del?
    ensures Standing(r, orig, i) < |Progress(r, orig, i)|
    ensures Progress(r, orig, i + 1) == Visit(r, Progress(r, orig, i), Standing(r, orig, i))
  {
    hide Moves, Touch, Visit, Kept, Moved;
    var j := |orig| - i;
    var x := orig[j - 1];
    assert orig[j - 1..] == [x] + orig[j..];
    KeptAppend(r, [x], orig[j..]);
    KeptOne(r, x);
    var kept, moved, front := Kept(r, orig[j..]), Moved(r, orig[j..]), orig[..j - 1];
    assert orig[..j] == front + [x];
    var a := moved + front;
    MovedLast(moved, front, x, kept);
    assert Progress(r, orig, i) == a + [x] + kept;
    VisitMiddle(r, a, x, kept);
    if Moves(r, x) {
      MovedFirst(Touch(r, x), moved, front, kept);
      assert [] + kept == kept;
    } else {
      assert [] + moved == moved;
    }
  }

  lemma MovedLast<X>(a: seq<X>, b: seq<X>, x: X, c: seq<X>)
    ensures a + (b + [x]) + c == a + b + [x] + c == a + b + ([x] + c)
  {}

  lemma MovedFirst<X>(x: X, a: seq<X>, b: seq<X>, c: seq<X>)
    ensures [x] + (a + b + c) == [x] + a + b + c
  {}

  lemma {:induction false} NothingToApply<T>(r: Rule, es: seq<Entry<T>>)
    requires MatchesNothing(r.sel)
    ensures Kept(r, es) == es && Moved(r, es) == [] && Apply(r, es) == es
    decreases |es|
  {
    if es != [] {
      EarlyExitIsSound(r.sel, es[0].cipher);
      NothingToApply(r, es[1..]);
    }
  }
}
