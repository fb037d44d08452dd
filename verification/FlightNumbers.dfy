/**
 Record numbers over the life of a sender: whatever is flushed, rewound, queued and
 switched, no two records that go out have the same number, and within an epoch the
 numbers increase.
 */
module FlightNumbers {
  import opened Common
  import opened Wire
  import opened HandshakeWire
  import opened Flight

  /** How many numbers of an epoch have been used up. */
  function Used(s: Sender, epoch: nat): nat {
    if epoch == s.epoch then s.writeSeq else s.lastSeq
  }

  /** Numbers of the same epoch increase. */
  ghost predicate Increasing(numbers: seq<nat>) {
    forall i, j :: 0 <= i < j < |numbers| && Epoch(numbers[i]) == Epoch(numbers[j]) ==> numbers[i] < numbers[j]
  }

  function Epoch(number: nat): nat {
    number / SEQUENCE_LIMIT
  }

  /** The numbers were used between these two states, in order. */
  ghost predicate UsedBetween(s: Sender, t: Sender, numbers: seq<nat>) {
    && t.epoch == s.epoch && (forall e: nat :: e <= s.epoch ==> Used(s, e) <= Used(t, e))
    && Increasing(numbers)
    && (forall n :: n in numbers ==> Between(s, t, n))
  }

  predicate Between(s: Sender, t: Sender, n: nat) {
    Epoch(n) <= s.epoch && Used(s, Epoch(n)) <= n % SEQUENCE_LIMIT < Used(t, Epoch(n))
  }

  lemma NothingUsed(s: Sender, t: Sender)
    requires t.epoch == s.epoch && t.writeSeq == s.writeSeq && t.lastSeq == s.lastSeq
    ensures UsedBetween(s, t, [])
  {}

  lemma UsedInTurn(s: Sender, t: Sender, u: Sender, a: seq<nat>, b: seq<nat>)
    requires UsedBetween(s, t, a) && UsedBetween(t, u, b)
    ensures UsedBetween(s, u, a + b)
  {
    hide Epoch;
    var all := a + b;
    forall n | n in all
      ensures Between(s, u, n)
    {
      assert n in a || n in b;
    }
    forall i, j | 0 <= i < j < |all| && Epoch(all[i]) == Epoch(all[j])
      ensures all[i] < all[j]
    {
      if i < |a| <= j {
        assert a[i] in a && b[j - |a|] in b;
        SameEpochOrder(all[i], all[j]);
      }
    }
  }

  lemma SameEpochOrder(n: nat, k: nat)
    requires Epoch(n) == Epoch(k) && n % SEQUENCE_LIMIT < k % SEQUENCE_LIMIT
    ensures n < k
  {}

  lemma NumberParts(epoch: nat, seqNum: nat)
    requires seqNum < SEQUENCE_LIMIT
    ensures Epoch(epoch * SEQUENCE_LIMIT + seqNum) == epoch && (epoch * SEQUENCE_LIMIT + seqNum) % SEQUENCE_LIMIT
        == seqNum
  {}

  // ----- one record, packet, flush -------------------------------------------

  lemma RecordNumbers(s: Sender, m: Outgoing, p: Piece)
    requires s.WellFormed() && m.epoch <= s.epoch && (p.FragmentPiece? ==> p.f.FitsHeader())
    ensures var (t, r) := SealRecord(s, m, p);
            UsedBetween(s, t, if r.Some? then [r.value.number] else [])
  {
    hide Epoch, RecordBytes, Payload, Cipher.Lawful;
    var (t, r) := SealRecord(s, m, p);
    var epoch := if s.UsesPrevious(m) then 0 else s.epoch;
    NumberParts(epoch, if s.UsesPrevious(m) then s.lastSeq else s.writeSeq);
    if r.Some? {
      assert Between(s, t, r.value.number);
    }
  }

  lemma FragmentNumbers(s: Sender, m: Outgoing, w: Fragment, maxOut: nat)
    requires s.WellFormed() && m.epoch <= s.epoch
    requires w.FitsHeader() && w.msgLen == |w.body| && s.offset <= |w.body|
    requires maxOut > HM_HEADER_LENGTH + s.Overhead(m)
    ensures var (t, outcome) := SealFragment(s, m, w, maxOut);
            UsedBetween(s, t, NumberOf(outcome))
  {
    hide SealRecord, Increasing, Between, Cipher.Lawful;
    var todo := Min(|w.body| - s.offset, maxOut - HM_HEADER_LENGTH - s.Overhead(m));
    RecordNumbers(s, m, FragmentPiece(Cut(w, s.offset, todo)));
    var (t, sealed) := SealRecord(s, m, FragmentPiece(Cut(w, s.offset, todo)));
    SameCounters(s, t, SealFragment(s, m, w, maxOut).0, if sealed.Some? then [sealed.value.number] else []);
  }

  function NumberOf(outcome: Outcome): seq<nat> {
    if outcome.Partial? || outcome.Complete? then [outcome.sealed.number] else []
  }

  lemma MessageNumbers(s: Sender, maxOut: nat)
    requires s.WellFormed() && s.written < |s.messages|
    ensures var (t, outcome) := SealMessage(s, maxOut);
            UsedBetween(s, t, NumberOf(outcome))
  {
    hide SealRecord, SealFragment, Increasing, Between, Whole, Cipher.Lawful;
    NothingUsed(s, s);
    var m := s.messages[s.written];
    assert m in s.messages;
    if m.isCcs {
      RecordNumbers(s, m, CcsPiece);
    } else if Whole(m).Some? && s.offset <= |Whole(m).value.body| && maxOut > HM_HEADER_LENGTH + s.Overhead(m) {
      FragmentNumbers(s, m, Whole(m).value, maxOut);
    }
  }

  function NumbersIn(packet: seq<Sealed>): seq<nat> {
    if packet == [] then [] else [packet[0].number] + NumbersIn(packet[1..])
  }

  function Numbers(packets: seq<seq<Sealed>>): seq<nat> {
    if packets == [] then [] else NumbersIn(packets[0]) + Numbers(packets[1..])
  }

  lemma {:induction false} PacketNumbers(s: Sender, maxOut: nat, madeProgress: bool)
    requires s.WellFormed()
    ensures var (t, packet) := SealPacket(s, maxOut, madeProgress);
            UsedBetween(s, t, if packet.Some? then NumbersIn(packet.value) else [])
    decreases |s.messages| - s.written
  {
    hide SealMessage, UsedBetween, NumberOf;
    NothingUsed(s, s);
    if s.written < |s.messages| {
      MessageNumbers(s, maxOut);
      var (t, outcome) := SealMessage(s, maxOut);
      NumberOfOutcome(outcome);
      if outcome.Complete? {
        var next := t.(written := t.written + 1);
        SameCounters(s, t, next, NumberOf(outcome));
        PacketNumbers(next, maxOut - |outcome.sealed.wire|, true);
        var (u, rest) := SealPacket(next, maxOut - |outcome.sealed.wire|, true);
        UsedInTurn(s, next, u, NumberOf(outcome), if rest.Some? then NumbersIn(rest.value) else []);
        if rest.None? {
          FewerUsed(s, u, NumberOf(outcome) + []);
        }
      } else if outcome.Partial? {
        assert NumbersIn([outcome.sealed]) == [outcome.sealed.number];
      }
    }
  }

  lemma NumberOfOutcome(outcome: Outcome)
    ensures NumberOf(outcome) == if outcome.Partial? || outcome.Complete? then [outcome.sealed.number] else []
  {}

  lemma SameCounters(s: Sender, t: Sender, u: Sender, numbers: seq<nat>)
    requires UsedBetween(s, t, numbers) && u.epoch == t.epoch && u.writeSeq == t.writeSeq && u.lastSeq == t.lastSeq
    ensures UsedBetween(s, u, numbers)
  {
    assert forall n :: Between(s, t, n) <==> Between(s, u, n);
  }

  /** A packet that is not sent uses its numbers all the same. */
  lemma FewerUsed(s: Sender, t: Sender, numbers: seq<nat>)
    requires UsedBetween(s, t, numbers)
    ensures UsedBetween(s, t, [])
  {}

  lemma {:induction false} FlushNumbers(s: Sender, mtu: nat, results: seq<int>, flushed: int)
    requires s.WellFormed()
    ensures var (t, packets, last) := Flush(s, mtu, results, flushed);
            UsedBetween(s, t, Numbers(packets))
    decreases |s.messages| - s.written, LeftOfMessage(s)
  {
    hide SealPacket, UsedBetween;
    NothingUsed(s, s);
    if s.written < |s.messages| {
      PacketNumbers(s, mtu, false);
      var (t, packet) := SealPacket(s, mtu, false);
      if packet.Some? && results != [] && results[0] > 0 {
        FlushNumbers(t, mtu, results[1..], flushed);
        var (u, rest, last) := Flush(t, mtu, results[1..], flushed);
        UsedInTurn(s, t, u, NumbersIn(packet.value), Numbers(rest));
        assert ([packet.value] + rest)[1..] == rest;
      } else if packet.Some? {
        FewerUsed(s, t, NumbersIn(packet.value));
        SameCounters(s, t, t.(written := s.written, offset := s.offset), []);
      }
    }
  }

  // ----- messages of epoch 0 -------------------------------------------------

  predicate AllInClear(s: Sender) {
    forall m :: m in s.messages ==> m.epoch == 0
  }

  predicate NumberedInClear(numbers: seq<nat>) {
    forall n :: n in numbers ==> Epoch(n) == 0
  }

  lemma MessageInClear(s: Sender, maxOut: nat)
    requires s.WellFormed() && s.written < |s.messages| && AllInClear(s)
    ensures var (t, outcome) := SealMessage(s, maxOut);
            t.messages == s.messages && NumberedInClear(NumberOf(outcome))
  {
    hide Whole, Payload, RecordBytes, Cipher.Lawful, Cut;
    var m := s.messages[s.written];
    assert m in s.messages && m.epoch == 0;
  }

  lemma {:induction false} PacketInClear(s: Sender, maxOut: nat, madeProgress: bool)
    requires s.WellFormed() && AllInClear(s)
    ensures var (t, packet) := SealPacket(s, maxOut, madeProgress);
            packet.Some? ==> NumberedInClear(NumbersIn(packet.value))
    decreases |s.messages| - s.written
  {
    hide SealMessage, Epoch;
    if s.written < |s.messages| {
      MessageInClear(s, maxOut);
      var (t, outcome) := SealMessage(s, maxOut);
      if outcome.Complete? {
        PacketInClear(t.(written := t.written + 1), maxOut - |outcome.sealed.wire|, true);
        assert outcome.sealed.number in NumberOf(outcome);
      } else if outcome.Partial? {
        assert outcome.sealed.number in NumberOf(outcome);
      }
    }
  }

  lemma {:induction false} FlushInClear(s: Sender, mtu: nat, results: seq<int>, flushed: int)
    requires s.WellFormed() && AllInClear(s)
    ensures NumberedInClear(Numbers(Flush(s, mtu, results, flushed).1))
    decreases |s.messages| - s.written, LeftOfMessage(s)
  {
    hide SealPacket, Epoch;
    if s.written < |s.messages| {
      PacketInClear(s, mtu, false);
      var (t, packet) := SealPacket(s, mtu, false);
      if packet.Some? && results != [] && results[0] > 0 {
        FlushInClear(t, mtu, results[1..], flushed);
        var rest := Flush(t, mtu, results[1..], flushed).1;
        assert ([packet.value] + rest)[1..] == rest;
      }
    }
  }

  // ----- the life of a sender ------------------------------------------------

  /** What may happen to a sender. The write cipher changes once, from epoch 0 to 1. */
  datatype Action =
    | Flushes(mtu: nat, results: seq<int>, flushed: int)
    | Rewinds
    | Queues(data: seq<byte>, isCcs: bool)
    | Clears
    | ChangesCipher(next: Cipher)

  ghost predicate CanDo(s: Sender, a: Action) {
    a.ChangesCipher? ==> s.epoch == 0 && a.next.Lawful()
  }

  /** The sender after an action, and the packets that went out. */
  ghost function Act(s: Sender, a: Action): (r: (Sender, seq<seq<Sealed>>))
    requires s.WellFormed() && CanDo(s, a)
    ensures r.0.WellFormed()
  {
    match a
    case Flushes(mtu, results, flushed) =>
      var (t, packets, last) := Flush(s, mtu, results, flushed);
      (t, packets)
    case Rewinds => (Rewind(s), [])
    case Queues(data, isCcs) => (s.(messages := s.messages + [Outgoing(data, s.epoch, isCcs)]), [])
    case Clears => (s.(messages := [], written := 0, offset := 0), [])
    case ChangesCipher(next) =>
      (s.(epoch := s.epoch + 1, cipher := next, lastSeq := s.writeSeq, writeSeq := 0), [])
  }

  ghost predicate CanRun(s: Sender, actions: seq<Action>)
    requires s.WellFormed()
    decreases |actions|
  {
    actions != [] ==> CanDo(s, actions[0]) && CanRun(Act(s, actions[0]).0, actions[1..])
  }

  /** The numbers of all records that go out, in order. */
  ghost function AllNumbers(s: Sender, actions: seq<Action>): seq<nat>
    requires s.WellFormed() && CanRun(s, actions)
    decreases |actions|
  {
    if actions == [] then []
    else
      var (t, packets) := Act(s, actions[0]);
      Numbers(packets) + AllNumbers(t, actions[1..])
  }

  /** No number is one that has been used up. */
  ghost predicate AllNew(s: Sender, numbers: seq<nat>) {
    Increasing(numbers) && forall n :: n in numbers && Epoch(n) <= s.epoch ==> Used(s, Epoch(n)) <= n % SEQUENCE_LIMIT
  }

  lemma NewInTurn(s: Sender, t: Sender, a: seq<nat>, b: seq<nat>)
    requires UsedBetween(s, t, a) && AllNew(t, b)
    ensures AllNew(s, a + b)
  {
    hide Epoch;
    var all := a + b;
    forall i, j | 0 <= i < j < |all| && Epoch(all[i]) == Epoch(all[j])
      ensures all[i] < all[j]
    {
      if i < |a| <= j {
        assert a[i] in a && b[j - |a|] in b;
        SameEpochOrder(all[i], all[j]);
      }
    }
    forall n | n in all && Epoch(n) <= s.epoch
      ensures Used(s, Epoch(n)) <= n % SEQUENCE_LIMIT
    {
      assert n in a || n in b;
    }
  }

  /** A change of cipher puts the numbers used so far aside, and starts again at zero. */
  lemma NewAfterChange(s: Sender, t: Sender, numbers: seq<nat>)
    requires s.epoch == 0 && t.epoch == 1 && t.lastSeq == s.writeSeq && AllNew(t, numbers)
    ensures AllNew(s, numbers)
  {
    hide Epoch;
    assert forall n :: n in numbers && Epoch(n) == 0 ==> Used(t, 0) <= n % SEQUENCE_LIMIT;
  }

  lemma {:induction false} RunNumbers(s: Sender, actions: seq<Action>)
    requires s.WellFormed() && CanRun(s, actions)
    ensures AllNew(s, AllNumbers(s, actions))
    decreases |actions|
  {
    hide Flush, AllNew, UsedBetween, Sender.WellFormed;
    if actions == [] {
      NoneIsOld(s);
    } else {
      var (t, packets) := Act(s, actions[0]);
      var later := AllNumbers(t, actions[1..]);
      RunNumbers(t, actions[1..]);
      match actions[0] {
        case Flushes(mtu, results, flushed) => FlushNumbers(s, mtu, results, flushed);
        case ChangesCipher(next) => NewAfterChange(s, t, later);
        case _ => NothingUsed(s, t);
      }
      if actions[0].ChangesCipher? {
        assert AllNumbers(s, actions) == [] + later == later;
      } else {
        NewInTurn(s, t, Numbers(packets), later);
      }
    }
  }

  lemma NoneIsOld(s: Sender)
    ensures AllNew(s, [])
  {}

  /** Over the life of a sender, with flushes at any MTUs, failed writes, sealing errors,
      rewinds and a change of cipher: the numbers of the records that go out are pairwise
      distinct, and within an epoch each is greater than those before it. */
  lemma NumbersAreDistinct(s: Sender, actions: seq<Action>)
    requires s.WellFormed() && CanRun(s, actions)
    ensures forall i, j :: 0 <= i < j < |AllNumbers(s, actions)| ==>
              AllNumbers(s, actions)[i] != AllNumbers(s, actions)[j]
    ensures Increasing(AllNumbers(s, actions))
  {
    hide AllNumbers, Epoch;
    RunNumbers(s, actions);
  }
}
