/**
 The doubly linked list of ciphers, rearranged in place while it is walked.
 */
module CipherList {
  import opened CipherRules
  import opened CipherStrength
  import opened CipherConfig

  /** CIPHER_ORDER */
  class Node {
    const cipher: Cipher
    var active: bool
    var inGroup: bool
    var next: Node?
    var prev: Node?

    constructor (cipher: Cipher)
      ensures this.cipher == cipher && !active && !inGroup && next == null && prev == null
    {
      this.cipher, active, inGroup, next, prev := cipher, false, false, null, null;
    }
  }

  class List {
    var head: Node?
    var tail: Node?
    ghost var nodes: seq<Node>
    ghost var entries: seq<Entry<Node>>

    /** The next chain and the prev chain mirror each other, with no repeats. */
    ghost predicate Valid()
      reads `head, `tail, `nodes, nodes`next, nodes`prev
    {
      && (forall i, j :: 0 <= i < j < |nodes| ==> nodes[i] != nodes[j])
      && (if nodes == [] then head == null && tail == null
          else head == nodes[0] && tail == nodes[|nodes| - 1]
               && nodes[0].prev == null && nodes[|nodes| - 1].next == null)
      && (forall i {:trigger nodes[i].prev} :: 1 <= i < |nodes| ==> nodes[i].prev == nodes[i - 1])
      && (forall i {:trigger nodes[i].next} :: 0 <= i < |nodes| - 1 ==> nodes[i].next == nodes[i + 1])
    }

    constructor Empty()
      ensures Ok() && entries == [] && nodes == []
    {
      head, tail, nodes, entries := null, null, [], [];
    }

    lemma AppearsOnce(k: nat)
      requires Valid() && k < |nodes|
      ensures nodes[k] !in nodes[..k] + nodes[k + 1..]
    {}

    /** Takes the k-th node out of the chain; its own links are left dangling. */
    method Detach(curr: Node, ghost k: nat)
      requires Valid() && k < |nodes| && nodes[k] == curr
      modifies `head, `tail, `nodes, nodes`next, nodes`prev
      ensures Valid()
      ensures nodes == old(nodes)[..k] + old(nodes)[k + 1..]
    {
      if curr == head {
        head := curr.next;
      }
      if curr == tail {
        tail := curr.prev;
      }
      if curr.prev != null {
        curr.prev.next := curr.next;
      }
      if curr.next != null {
        curr.next.prev := curr.prev;
      }
      nodes := nodes[..k] + nodes[k + 1..];
    }

    /** Links a detached node in after the tail of a non-empty list. */
    method LinkTail(curr: Node)
      requires Valid() && nodes != [] && curr !in nodes
      modifies `head, `tail, `nodes, nodes`next, curr`next, curr`prev
      ensures Valid() && nodes == old(nodes) + [curr]
    {
      tail.next := curr;
      curr.prev := tail;
      curr.next := null;
      tail := curr;
      nodes := nodes + [curr];
    }

    method LinkHead(curr: Node)
      requires Valid() && nodes != [] && curr !in nodes
      modifies `head, `tail, `nodes, nodes`prev, curr`next, curr`prev
      ensures Valid() && nodes == [curr] + old(nodes)
    {
      head.prev := curr;
      curr.next := head;
      curr.prev := null;
      head := curr;
      nodes := [curr] + nodes;
    }

    /** Moves the k-th node to the tail. */
    method AppendTail(curr: Node, ghost k: nat)
      requires Valid() && k < |nodes| && nodes[k] == curr
      modifies `head, `tail, `nodes, nodes`next, nodes`prev
      ensures Valid() && nodes == old(nodes)[..k] + old(nodes)[k + 1..] + [curr]
    {
      if curr == tail {
        assert k == |nodes| - 1;
        return;
      }
      Detach(curr, k);
      LinkTail(curr);
    }

    /** Moves the k-th node to the head. */
    method AppendHead(curr: Node, ghost k: nat)
      requires Valid() && k < |nodes| && nodes[k] == curr
      modifies `head, `tail, `nodes, nodes`next, nodes`prev
      ensures Valid() && nodes == [curr] + (old(nodes)[..k] + old(nodes)[k + 1..])
    {
      if curr == head {
        assert k == 0;
        return;
      }
      Detach(curr, k);
      LinkHead(curr);
    }

    /** Drops the k-th node and clears its links. */
    method Unlink(curr: Node, ghost k: nat)
      requires Valid() && k < |nodes| && nodes[k] == curr
      modifies `head, `tail, `nodes, nodes`next, nodes`prev
      ensures Valid() && nodes == old(nodes)[..k] + old(nodes)[k + 1..]
    {
      Detach(curr, k);
      curr.next := null;
      curr.prev := null;
    }

    /** The chain is in order and the entries say, node by node, what it holds. */
    ghost predicate Ok()
      reads this, nodes
    {
      Valid() && Holding(entries, nodes)
    }

    /** Moves the k-th node to the tail and sets its flags. */
    method SendToTail(curr: Node, active: bool, inGroup: bool, ghost k: nat)
      requires Ok() && k < |nodes| == |entries| && nodes[k] == curr
      modifies this, nodes
      ensures Ok()
      ensures entries == old(entries)[..k] + old(entries)[k + 1..]
                         + [old(entries)[k].(active := active, inGroup := inGroup)]
      ensures nodes == old(nodes)[..k] + old(nodes)[k + 1..] + [curr]
    {
      hide Valid, Holding;
      ghost var rest, others := entries[..k] + entries[k + 1..], nodes[..k] + nodes[k + 1..];
      ghost var e := entries[k].(active := active, inGroup := inGroup);
      RestHolds(entries, nodes, k);
      AppearsOnce(k);
      AppendTail(curr, k);
      curr.active := active;
      curr.inGroup := inGroup;
      entries := rest + [e];
      OneHolds(e, curr);
      BothHold(rest, others, [e], [curr]);
    }

    /** Moves the k-th node to the head and deactivates it. */
    method SendToHead(curr: Node, ghost k: nat)
      requires Ok() && k < |nodes| == |entries| && nodes[k] == curr
      modifies this, nodes
      ensures Ok()
      ensures entries == [old(entries)[k].(active := false, inGroup := false)]
                         + (old(entries)[..k] + old(entries)[k + 1..])
      ensures nodes == [curr] + (old(nodes)[..k] + old(nodes)[k + 1..])
    {
      hide Valid, Holding;
      ghost var rest, others := entries[..k] + entries[k + 1..], nodes[..k] + nodes[k + 1..];
      ghost var e := entries[k].(active := false, inGroup := false);
      RestHolds(entries, nodes, k);
      AppearsOnce(k);
      AppendHead(curr, k);
      curr.active := false;
      curr.inGroup := false;
      entries := [e] + rest;
      OneHolds(e, curr);
      BothHold([e], [curr], rest, others);
    }

    method Remove(curr: Node, ghost k: nat)
      requires Ok() && k < |nodes| == |entries| && nodes[k] == curr
      modifies this, nodes
      ensures Ok()
      ensures entries == old(entries)[..k] + old(entries)[k + 1..]
      ensures nodes == old(nodes)[..k] + old(nodes)[k + 1..]
    {
      hide Valid, Holding;
      RestHolds(entries, nodes, k);
      AppearsOnce(k);
      entries := entries[..k] + entries[k + 1..];
      Unlink(curr, k);
      curr.active := false;
    }

    /** The body of the rule loop: acts on the node the walk stands on. */
    method VisitNode(r: Rule, curr: Node, ghost k: nat)
      requires Ok() && k < |nodes| == |entries| && nodes[k] == curr && Describes(entries[k], curr)
      modifies this, nodes
      ensures Ok()
      ensures entries == Visit(r, old(entries), k)
      ensures forall j :: 0 <= j < |nodes| ==> nodes[j] in old(nodes)
    {
      hide Selects, Ok;
      if !Selects(r.sel, curr.cipher) {
        return;
      }
      match r.kind
      case Add =>
        if !curr.active {
          SendToTail(curr, true, r.inGroup, k);
        }
      case Ord =>
        if curr.active {
          SendToTail(curr, curr.active, false, k);
        }
      case Del =>
        if curr.active {
          SendToHead(curr, k);
        }
      case Kill =>
        Remove(curr, k);
    }

    lemma AtNode(k: nat)
      requires Ok() && k < |entries|
      ensures |nodes| == |entries| && nodes[k] == entries[k].tag && Describes(entries[k], nodes[k])
      ensures k + 1 < |entries| ==> nodes[k].next == entries[k + 1].tag
      ensures k > 0 ==> nodes[k].prev == entries[k - 1].tag
    {
      assert Describes(entries[k], nodes[k]);
      if k > 0 {
        assert Describes(entries[k - 1], nodes[k - 1]);
      }
      if k + 1 < |entries| {
        assert Describes(entries[k + 1], nodes[k + 1]);
      }
    }

    lemma EndsOfList()
      requires Ok()
      ensures head == if entries == [] then null else entries[0].tag
      ensures tail == if entries == [] then null else entries[|entries| - 1].tag
      ensures DistinctTags(entries)
    {
      if entries != [] {
        AtNode(0);
        AtNode(|entries| - 1);
      }
    }

    /** Applies a rule to the whole list, walking it while it is rearranged. */
    method ApplyRule(r: Rule)
      requires Ok()
      modifies this, nodes
      ensures Ok()
      ensures entries == Apply(r, old(entries))
      ensures forall j :: 0 <= j < |nodes| ==> nodes[j] in old(nodes)
    {
      hide Ok, Visit, Progress, Standing, Apply, Selects, DistinctTags, MatchesNothing, Describes;
      ghost var orig := entries;
      if MatchesNothing(r.sel) {
        NothingToApply(r, orig);
        return;
      }
      var reverse := r.kind == Del;
      var next, last := if reverse then tail else head, if reverse then head else tail;
      var curr: Node? := null;
      ghost var i: nat := 0;
      ProgressStarts(r, orig);
      EndsOfList();
      while true
        invariant Ok() && i <= |orig|
        invariant forall j :: 0 <= j < |nodes| ==> nodes[j] in old(nodes)
        invariant entries == Progress(r, orig, i)
        invariant curr == if i == 0 then null else Visited(r, orig, i - 1).tag
        invariant i < |orig| ==> next == Visited(r, orig, i).tag
        decreases |orig| - i
      {
        VisitedDiffers(r, orig, i);
        if curr == last {
          break;
        }
        curr := next;
        if curr == null {
          break;
        }
        ghost var k := Standing(r, orig, i);
        StandsOnVisited(r, orig, i);
        if i + 1 < |orig| {
          NeighbourIsNext(r, orig, i);
        }
        AtNode(k);
        next := if reverse then curr.prev else curr.next;
        VisitNode(r, curr, k);
        if r.kind.Del? {
          ProgressBackward(r, orig, i);
        } else {
          ProgressForward(r, orig, i);
        }
        i := i + 1;
      }
      ProgressEnds(r, orig);
    }

    /** Adds a node at the end while the list is first put together. */
    method Push(n: Node)
      requires Ok() && n !in nodes && n.next == null && n.prev == null
      modifies this, nodes`next, n`next, n`prev
      ensures Ok() && nodes == old(nodes) + [n]
      ensures entries == old(entries) + [Entry(n, n.cipher, n.active, n.inGroup)]
    {
      hide Holding;
      SameLength();
      if nodes == [] {
        assert nodes + [n] == [n];
      }
      OneHolds(Entry(n, n.cipher, n.active, n.inGroup), n);
      BothHold(entries, nodes, [Entry(n, n.cipher, n.active, n.inGroup)], [n]);
      entries := entries + [Entry(n, n.cipher, n.active, n.inGroup)];
      if head == null {
        head, tail := n, n;
        nodes := [n];
      } else {
        LinkTail(n);
      }
    }

    static lemma PreferencesFrom(es: seq<Entry<Node>>, i: nat, prefs: seq<(Cipher, bool)>)
      requires i < |es|
      ensures prefs + Preferences(es[i..])
           == prefs + (if es[i].active then [(es[i].cipher, es[i].inGroup)] else []) + Preferences(es[i + 1..])
    {
      hide Preferences;
      PreferencesStep(es[i..]);
      assert es[i..][1..] == es[i + 1..];
    }

    /** The active ciphers in order, with their group flags. */
    method ActiveCiphers() returns (prefs: seq<(Cipher, bool)>)
      requires Ok()
      ensures prefs == Preferences(entries)
    {
      hide Ok, Preferences;
      prefs := [];
      NoPreferences<Node>();
      var curr := head;
      ghost var i := 0;
      EndsOfList();
      assert entries[0..] == entries;
      while curr != null
        invariant i <= |entries|
        invariant curr == if i == |entries| then null else entries[i].tag
        invariant prefs + Preferences(entries[i..]) == Preferences(entries)
        decreases |entries| - i
      {
        AtNode(i);
        PreferencesFrom(entries, i, prefs);
        if curr.active {
          prefs := prefs + [(curr.cipher, curr.inGroup)];
        }
        curr := curr.next;
        i := i + 1;
        AfterLast(i);
      }
      assert entries[i..] == [] && prefs + [] == prefs;
    }

    /** Closes the preference group that ends at the tail. */
    method CloseTail()
      requires Ok()
      modifies nodes`inGroup, `entries
      ensures Ok()
      ensures entries == if old(entries) == [] then []
                         else old(entries)[|old(entries)| - 1 := old(entries)[|old(entries)| - 1].(inGroup := false)]
    {
      hide Valid, Holding;
      EndsOfList();
      SameLength();
      if tail == null {
        return;
      }
      ghost var k := |entries| - 1;
      ghost var e := entries[k].(inGroup := false);
      ghost var rest, others := entries[..k] + entries[k + 1..], nodes[..k] + nodes[k + 1..];
      AtNode(k);
      RestHolds(entries, nodes, k);
      AppearsOnce(k);
      tail.inGroup := false;
      entries := entries[k := e];
      OneHolds(e, tail);
      BothHold(rest, others, [e], [tail]);
      assert entries == rest + [e] && nodes == others + [tail];
    }

    lemma SameLength()
      requires Ok()
      ensures |entries| == |nodes|
    {}

    lemma AfterLast(i: nat)
      requires Ok() && i <= |entries|
      ensures i == |entries| && i > 0 ==> |nodes| == i && nodes[i - 1].next == null
    {}

    /** First pass of the sort: the greatest strength among active ciphers. */
    method FindMaxStrength() returns (max: nat)
      requires Ok()
      ensures max == MaxBits(entries)
    {
      hide Ok, StrengthBits, MaxBits;
      max := 0;
      var curr := head;
      ghost var i := 0;
      EndsOfList();
      NothingToMeasure<Node>();
      assert entries[0..] == entries;
      while curr != null
        invariant i <= |entries|
        invariant curr == if i == |entries| then null else entries[i].tag
        invariant MaxBits(entries) == Greater(max, MaxBits(entries[i..]))
        decreases |entries| - i
      {
        AtNode(i);
        MaxBitsStep(entries[i..]);
        assert entries[i..][1..] == entries[i + 1..];
        if curr.active && StrengthBits(curr.cipher) > max {
          max := StrengthBits(curr.cipher);
        }
        curr := curr.next;
        i := i + 1;
        AfterLast(i);
      }
      assert entries[i..] == [];
    }

    /** Second pass: how many active ciphers have each strength. */
    method CountStrengths(max: nat) returns (uses: array<nat>)
      requires Ok() && max == MaxBits(entries)
      ensures fresh(uses) && uses.Length == max + 1
      ensures forall b :: 0 <= b <= max ==> uses[b] == Uses(entries, b)
    {
      hide Ok, StrengthBits, MaxBits, Uses;
      uses := new nat[max + 1](_ => 0);
      var curr := head;
      ghost var i := 0;
      EndsOfList();
      NothingToMeasure<Node>();
      assert entries[0..] == entries;
      while curr != null
        invariant i <= |entries|
        invariant curr == if i == |entries| then null else entries[i].tag
        invariant forall b :: 0 <= b <= max ==> uses[b] + Uses(entries[i..], b) == Uses(entries, b)
        decreases |entries| - i
      {
        AtNode(i);
        MaxBitsStep(entries[i..]);
        assert entries[i..][1..] == entries[i + 1..];
        if curr.active {
          WithinMax(entries, i);
          var bits := StrengthBits(curr.cipher);
          uses[bits] := uses[bits] + 1;
        }
        curr := curr.next;
        i := i + 1;
        AfterLast(i);
      }
    }

    /** @STRENGTH: one ORD pass per strength in use, strongest first. */
    method SortByStrength()
      requires Ok()
      modifies this, nodes
      ensures Ok()
      ensures entries == StrengthSort(old(entries))
      ensures forall j :: 0 <= j < |nodes| ==> nodes[j] in old(nodes)
    {
      hide Ok, MaxBits, Uses, Apply;
      ghost var orig := entries;
      var max := FindMaxStrength();
      var uses := CountStrengths(max);
      var i: int := max;
      while i >= 0
        invariant -1 <= i <= max
        invariant Ok()
        invariant forall j :: 0 <= j < |nodes| ==> nodes[j] in old(nodes)
        invariant forall b :: 0 <= b <= max ==> uses[b] == Uses(orig, b)
        invariant Passes(orig, entries, i) == StrengthSort(orig)
        decreases i
      {
        if uses[i] > 0 {
          ApplyRule(OrdRule(i));
        }
        i := i - 1;
      }
    }
  }

  ghost predicate DistinctTags(es: seq<Entry<Node>>) {
    forall i, j :: 0 <= i < j < |es| ==> es[i].tag != es[j].tag
  }

  /** The walk has reached its last node exactly after visiting all. */
  lemma VisitedDiffers(r: Rule, orig: seq<Entry<Node>>, i: nat)
    requires DistinctTags(orig) && i <= |orig|
    ensures 0 < i < |orig| ==> Visited(r, orig, i - 1).tag != Visited(r, orig, |orig| - 1).tag
  {}

  ghost predicate Describes(e: Entry<Node>, n: Node)
    reads n`active, n`inGroup
  {
    e.tag == n && e.cipher == n.cipher && e.active == n.active && e.inGroup == n.inGroup
  }

  ghost predicate Holding(es: seq<Entry<Node>>, ns: seq<Node>)
    reads ns`active, ns`inGroup
  {
    |es| == |ns| && forall i :: 0 <= i < |es| ==> Describes(es[i], ns[i])
  }

  lemma RestHolds(es: seq<Entry<Node>>, ns: seq<Node>, k: nat)
    requires Holding(es, ns) && k < |es|
    ensures k < |ns| && Describes(es[k], ns[k])
    ensures Holding(es[..k] + es[k + 1..], ns[..k] + ns[k + 1..])
  {}

  lemma OneHolds(e: Entry<Node>, n: Node)
    requires Describes(e, n)
    ensures Holding([e], [n])
  {}

  lemma BothHold(a: seq<Entry<Node>>, ns: seq<Node>, b: seq<Entry<Node>>, ms: seq<Node>)
    requires Holding(a, ns) && Holding(b, ms)
    ensures Holding(a + b, ns + ms)
  {}
}
