/**
 A flight that gets through is handed out: the sender's pieces hold every byte of every
 message, and the receiver loses none of the records handed on to it.
 */
module FlightDelivery {
  import opened Common
  import opened Wire
  import opened HandshakeWire
  import opened Receiver
  import opened Delivery
  import opened Progress
  import opened RecordInput
  import opened EndToEnd
  import opened Connection
  import Flight
  import FlightCoverage

  // ----- the pieces of a flight hold every byte ------------------------------

  /** The pieces bring some fragment of message q, and each of its bytes. */
  ghost predicate Hold(ps: seq<Flight.Piece>, q: nat, len: nat) {
    && (exists p :: p in ps && p.FragmentPiece? && p.f.seqNo == q)
    && forall j: nat :: j < len ==> PieceCovers(ps, q, j)
  }

  ghost predicate PieceCovers(ps: seq<Flight.Piece>, q: nat, j: nat) {
    exists p :: p in ps && p.FragmentPiece? && Covers(p.f, q, j)
  }

  lemma {:induction false} CutCovers(w: Fragment, offset: nat, ps: seq<Flight.Piece>, j: nat)
    requires FlightCoverage.IsCut(w, offset, ps) && offset <= j < |w.body|
    ensures PieceCovers(ps, w.seqNo, j)
    decreases |ps|
  {
    var p := ps[0];
    if j < offset + |p.f.body| {
      assert p in ps && Covers(p.f, w.seqNo, j);
    } else {
      CutCovers(w, offset + |p.f.body|, ps[1..], j);
    }
  }

  lemma CutHolds(w: Fragment, ps: seq<Flight.Piece>)
    requires FlightCoverage.IsCut(w, 0, ps)
    ensures Hold(ps, w.seqNo, |w.body|)
  {
    hide PieceCovers;
    assert ps[0] in ps;
    forall j: nat | j < |w.body|
      ensures PieceCovers(ps, w.seqNo, j)
    {
      CutCovers(w, 0, ps, j);
    }
  }

  lemma MorePiecesHold(a: seq<Flight.Piece>, ps: seq<Flight.Piece>, q: nat, len: nat)
    requires Hold(a, q, len) && forall p :: p in a ==> p in ps
    ensures Hold(ps, q, len)
  {
    forall j: nat | j < len
      ensures PieceCovers(ps, q, j)
    {
      assert PieceCovers(a, q, j);
    }
  }

  lemma {:induction false} PartitionHolds(msgs: seq<Flight.Outgoing>, ps: seq<Flight.Piece>, m: Flight.Outgoing)
    requires FlightCoverage.Partition(msgs, ps) && m in msgs && !m.isCcs
    ensures Flight.Whole(m).Some?
    ensures var w := Flight.Whole(m).value; Hold(ps, w.seqNo, |w.body|)
    decreases |msgs|
  {
    hide Flight.Whole, FlightCoverage.IsCut, Hold;
    var k: nat :| k <= |ps| && FlightCoverage.Sends(msgs[0], ps[..k]) && FlightCoverage.Partition(msgs[1..], ps[k..]);
    if m == msgs[0] {
      var w := Flight.Whole(m).value;
      CutHolds(w, ps[..k]);
      MorePiecesHold(ps[..k], ps, w.seqNo, |w.body|);
    } else {
      assert m in msgs[1..];
      PartitionHolds(msgs[1..], ps[k..], m);
      var w := Flight.Whole(m).value;
      MorePiecesHold(ps[k..], ps, w.seqNo, |w.body|);
    }
  }

  // ----- the records handed on to the receiver -------------------------------

  lemma {:induction false} BroughtBy(recs: seq<Rec>, r: Rec)
    requires r in recs
    ensures forall f :: f in FragmentsOf(r) ==> f in Brought(recs)
    decreases |recs|
  {
    hide FragmentsOf;
    if r != recs[0] {
      assert r in recs[1..];
      BroughtBy(recs[1..], r);
    }
  }

  lemma {:induction false} UpToAll(fs: seq<Fragment>, calls: seq<Call>)
    ensures UpTo(fs, calls, |calls|) == fs + Brought(Arrivals(calls))
    decreases |calls|
  {
    hide Brought, Arrivals;
    if calls == [] {
      NothingBrought();
    } else {
      var first, later := calls[0].arrivals, Arrivals(calls[1..]);
      UpToAll(fs + Brought(first), calls[1..]);
      ArrivalsStep(calls);
      BroughtConcat(first, later);
      Regroup(fs, Brought(first), Brought(later));
    }
  }

  lemma NothingBrought()
    ensures Brought(Arrivals([])) == []
  {}

  lemma ArrivalsStep(calls: seq<Call>)
    requires calls != []
    ensures Arrivals(calls) == calls[0].arrivals + Arrivals(calls[1..])
  {}

  lemma Regroup(a: seq<Fragment>, b: seq<Fragment>, c: seq<Fragment>)
    ensures a + b + c == a + (b + c)
  {}

  /** The record of a piece brings the piece's fragment. */
  lemma PieceIsBrought(recs: seq<Rec>, p: Flight.Piece)
    requires p.FragmentPiece? && p.f.FitsHeader() && RecOf(p) in recs
    ensures p.f in Brought(recs)
  {
    hide Serialize, Fragments, Brought;
    FragmentsOfSerialized([p.f]);
    assert SerializeAll([p.f]) == Serialize(p.f);
    BroughtBy(recs, RecOf(p));
  }

  /** What the pieces hold is here once each of them is. */
  lemma HeldIsHere(sent: seq<Message>, ps: seq<Flight.Piece>, fs: seq<Fragment>, q: nat)
    requires q < |sent| && Hold(ps, q, |sent[q].body|)
    requires forall p :: p in ps && p.FragmentPiece? ==> p.f in fs
    ensures AllHere(sent, fs, q)
  {
    forall j: nat | j < |sent[q].body|
      ensures Arrived(fs, q, j)
    {
      assert PieceCovers(ps, q, j);
    }
  }

  // ----- a call that hands out nothing ---------------------------------------

  /** What is handed out are the next messages; and when a further call, not a re-read,
      adds nothing, the one after them is not here. */
  lemma {:induction false} NothingMore(sent: seq<Message>, fs: seq<Fragment>, p: Place, calls: seq<Call>, c: Call)
    requires !c.reuse && p.next <= |sent| && InOrder(sent, fs, p, calls + [c]) == InOrder(sent, fs, p, calls)
    ensures var n := p.next + |InOrder(sent, fs, p, calls)|;
            && n <= |sent| && InOrder(sent, fs, p, calls) == sent[p.next..n]
            && !AllHere(sent, UpTo(fs, calls + [c], |calls| + 1), n)
    decreases |calls|
  {
    hide AllHere, Brought, InOrder, UpTo, Turn;
    if calls == [] {
      OneTurn(sent, fs, p, c);
      TurnGives(sent, fs + Brought(c.arrivals), p, c.reuse);
      assert [] + [c] == [c];
      NothingInOrder(sent, fs, p);
    } else {
      var now := fs + Brought(calls[0].arrivals);
      var (next, out) := Turn(sent, now, p, calls[0].reuse);
      TurnGives(sent, now, p, calls[0].reuse);
      assert (calls + [c])[0] == calls[0] && (calls + [c])[1..] == calls[1..] + [c];
      var a, b := InOrder(sent, now, next, calls[1..] + [c]), InOrder(sent, now, next, calls[1..]);
      InOrderStep(sent, fs, p, calls);
      InOrderStep(sent, fs, p, calls + [c]);
      assert (out + a)[|out|..] == a && (out + b)[|out|..] == b;
      NothingMore(sent, now, next, calls[1..], c);
      UpToStep(fs, calls + [c], |calls| + 1);
    }
  }

  lemma TurnGives(sent: seq<Message>, fs: seq<Fragment>, p: Place, reuse: bool)
    ensures var (next, out) := Turn(sent, fs, p, reuse);
            if out == [] then next.next == p.next && (!reuse ==> !AllHere(sent, fs, p.next))
            else p.next < |sent| && out == [sent[p.next]] && next.next == p.next + 1
  {}

  lemma NothingInOrder(sent: seq<Message>, fs: seq<Fragment>, p: Place)
    ensures InOrder(sent, fs, p, []) == []
  {}

  lemma InOrderStep(sent: seq<Message>, fs: seq<Fragment>, p: Place, calls: seq<Call>)
    requires calls != []
    ensures var now := fs + Brought(calls[0].arrivals);
            var (next, out) := Turn(sent, now, p, calls[0].reuse);
            InOrder(sent, fs, p, calls) == out + InOrder(sent, now, next, calls[1..])
  {}

  lemma UpToStep(fs: seq<Fragment>, calls: seq<Call>, k: nat)
    requires 0 < k <= |calls|
    ensures UpTo(fs, calls, k) == UpTo(fs + Brought(calls[0].arrivals), calls[1..], k - 1)
  {}

  lemma OneTurn(sent: seq<Message>, fs: seq<Fragment>, p: Place, c: Call)
    ensures InOrder(sent, fs, p, [c]) == Turn(sent, fs + Brought(c.arrivals), p, c.reuse).1
    ensures UpTo(fs, [c], 1) == fs + Brought(c.arrivals)
  {
    hide AllHere, Brought;
    assert [c][1..] == [];
    assert UpTo(fs + Brought(c.arrivals), [], 0) == fs + Brought(c.arrivals);
  }

  // ----- the whole flight ----------------------------------------------------

  /** Message q is queued in the flight. */
  ghost predicate Queued(sent: seq<Message>, s: Flight.Sender, q: nat)
    requires q < |sent|
  {
    Fits(sent, q) && exists m :: m in s.messages && !m.isCcs && m.data == Serialize(WholeMessage(sent, q))
  }

  lemma QueuedIsHeld(sent: seq<Message>, s: Flight.Sender, ps: seq<Flight.Piece>, q: nat)
    requires q < |sent| && Queued(sent, s, q) && FlightCoverage.Partition(s.messages, ps)
    ensures Hold(ps, q, |sent[q].body|)
  {
    hide Serialize, Parse, Hold, FlightCoverage.Partition;
    var m :| m in s.messages && !m.isCcs && m.data == Serialize(WholeMessage(sent, q));
    ParseOfSerialize(WholeMessage(sent, q), []);
    assert m.data + [] == m.data;
    assert Flight.Whole(m) == Some(WholeMessage(sent, q));
    PartitionHolds(s.messages, ps, m);
  }

  lemma {:induction false} PieceFits(msgs: seq<Flight.Outgoing>, pos: FlightCoverage.Pos, ps: seq<Flight.Piece>)
    requires FlightCoverage.Walk(msgs, pos, ps).Some?
    ensures forall p :: p in ps && p.FragmentPiece? ==> p.f.FitsHeader()
    decreases |ps|
  {
    hide Flight.Whole, Flight.Cut;
    if ps != [] {
      PieceFits(msgs, FlightCoverage.NextPos(msgs, pos, ps[0]).value, ps[1..]);
    }
  }

  /** The pieces that leave until the flight is reported sent. */
  function PiecesSent(s: Flight.Sender, attempts: seq<FlightCoverage.Attempt>): seq<Flight.Piece>
    requires s.WellFormed()
  {
    FlightCoverage.AllPieces(FlightCoverage.FlushAll(s, attempts).1)
  }

  lemma SentPiecesFit(s: Flight.Sender, attempts: seq<FlightCoverage.Attempt>)
    requires FlightCoverage.Ready(s) && FlightCoverage.PosOf(s) == FlightCoverage.BEGIN
    requires FlightCoverage.FlushAll(s, attempts).2.AllSent?
    ensures forall p :: p in PiecesSent(s, attempts) && p.FragmentPiece? ==> p.f.FitsHeader()
  {
    hide FlightCoverage.FlushAll, FlightCoverage.Walk;
    FlightCoverage.FlushAllWalks(s, attempts);
    PieceFits(s.messages, FlightCoverage.BEGIN, PiecesSent(s, attempts));
  }

  lemma {:induction false} LastCall(keys: Flight.Cipher, l: Link, events: seq<Event>, maxLen: nat) returns (c: Call)
    requires l.ring.WellFormed()
    ensures !c.reuse && CallsOf(keys, l, events + [Asks(maxLen, false)]) == CallsOf(keys, l, events) + [c]
    decreases |events|
  {
    hide Ask, MessageIn, Quiet;
    var last := Asks(maxLen, false);
    if events == [] {
      c := CallOf(keys, l, maxLen, false);
      assert [] + [last] == [last] && [last][1..] == [];
      assert CallsOf(keys, Step(keys, l, last).0, []) == [];
    } else {
      assert (events + [last])[0] == events[0] && (events + [last])[1..] == events[1..] + [last];
      c := LastCall(keys, Step(keys, l, events[0]).0, events[1..], maxLen);
    }
  }

  /** The records that the record reader hands on in a run. */
  ghost function HandedOn(keys: Flight.Cipher, l: Link, events: seq<Event>): seq<Rec>
    requires l.ring.WellFormed()
  {
    Arrivals(CallsOf(keys, l, events))
  }

  lemma {:induction false} FrontDoesNotFail(keys: Flight.Cipher, l: Link, events: seq<Event>, e: Event)
    requires l.ring.WellFormed() && NoCallFails(keys, l, events + [e])
    ensures NoCallFails(keys, l, events)
    decreases |events|
  {
    hide Ask, MessageIn, Quiet;
    if events != [] {
      assert (events + [e])[0] == events[0] && (events + [e])[1..] == events[1..] + [e];
      FrontDoesNotFail(keys, Step(keys, l, events[0]).0, events[1..], e);
    }
  }

  /** A run on datagrams that were sent, of a flight of messages, in which no call fails,
      hands out what the simple form does. */
  lemma RunIsSimple(sent: seq<Message>, keys: Flight.Cipher, emissions: seq<Emission>, events: seq<Event>)
    requires |sent| <= MAX_FLIGHT && OnlySent(sent, keys, emissions, events) && NoCallFails(keys, CONNECTED, events)
    ensures Out(keys, CONNECTED, events) == InOrder(sent, [], BEGIN, CallsOf(keys, CONNECTED, events))
  {
    hide OffTheWire, OnlySent, Out, CallsOf, Delivered, InOrder, InReach, NoneFails, NoCallFails, HonestRec;
    var calls := CallsOf(keys, CONNECTED, events);
    CallsAreOffTheWire(sent, keys, emissions, CONNECTED, events);
    forall c: Call, r: Rec | c in calls && r in c.arrivals
      ensures HonestRec(sent, r)
    {
      OffTheWireIsHonest(sent, emissions, r);
    }
    assert forall c :: c in calls ==> HonestInbox(sent, c.arrivals);
    RunIsCalls(keys, CONNECTED, events);
    CallsDoNotFail(keys, CONNECTED, events);
    FewAreInReach(sent, [], BEGIN, calls);
    NothingIsLost(sent, calls);
  }

  /** A message queued in the flight is here once every record of the flight is. */
  lemma QueuedIsHere(sent: seq<Message>, s: Flight.Sender, attempts: seq<FlightCoverage.Attempt>, recs: seq<Rec>,
                     q: nat)
    requires FlightCoverage.Ready(s) && FlightCoverage.PosOf(s) == FlightCoverage.BEGIN
    requires FlightCoverage.FlushAll(s, attempts).2.AllSent? && q < |sent| && Queued(sent, s, q)
    requires forall p :: p in PiecesSent(s, attempts) && p.FragmentPiece? && p.f.FitsHeader() ==> RecOf(p) in recs
    ensures AllHere(sent, Brought(recs), q)
  {
    hide Hold, Queued, PiecesSent, FlightCoverage.Partition, FlightCoverage.FlushAll, AllHere, RecOf, Brought;
    var ps := PiecesSent(s, attempts);
    SentPiecesFit(s, attempts);
    SentPartition(s, attempts);
    forall p | p in ps && p.FragmentPiece?
      ensures p.f in Brought(recs)
    {
      PieceIsBrought(recs, p);
    }
    QueuedIsHeld(sent, s, ps, q);
    HeldIsHere(sent, ps, Brought(recs), q);
  }

  /** A flight that gets through is handed out, in either epoch. All messages, no more than
      the ring holds, are queued in one flight; it is flushed, at any MTUs and however often
      writes fail, until it is reported sent. The peer gets datagrams of this and other
      flushes of the messages, in any order and number; its record reader hands on every
      record of the flight at least once, before or after a change of cipher, and no call
      fails. Then as soon as a call for a message hands out nothing, all the messages sent
      are out, in order, byte for byte. */
  lemma FlightGetsThrough(sent: seq<Message>, keys: Flight.Cipher, s: Flight.Sender,
                          attempts: seq<FlightCoverage.Attempt>, emissions: seq<Emission>,
                          events: seq<Event>, maxLen: nat)
    requires FlightOf(sent, s) && FlightCoverage.PosOf(s) == FlightCoverage.BEGIN && |sent| <= MAX_FLIGHT
    requires forall q: nat :: q < |sent| ==> Queued(sent, s, q)
    requires FlightCoverage.FlushAll(s, attempts).2.AllSent?
    requires OnlySent(sent, keys, emissions, events)
    requires var run := events + [Asks(maxLen, false)];
             && NoCallFails(keys, CONNECTED, run) && Out(keys, CONNECTED, run) == Out(keys, CONNECTED, events)
             && forall p :: p in PiecesSent(s, attempts) && p.FragmentPiece? && p.f.FitsHeader() ==>
                  RecOf(p) in HandedOn(keys, CONNECTED, run)
    ensures Out(keys, CONNECTED, events) == sent
  {
    hide Out, CallsOf, NoCallFails, Delivered, Hold, Queued, PiecesSent, FlightCoverage.Partition;
    hide FlightCoverage.FlushAll, AllHere, UpTo, InOrder, InReach, NoneFails, FlightOf, RecOf;
    FlightIsReady(sent, s);
    var run := events + [Asks(maxLen, false)];
    var calls, all := CallsOf(keys, CONNECTED, events), CallsOf(keys, CONNECTED, run);
    var c := LastCall(keys, CONNECTED, events, maxLen);
    RunIsSimple(sent, keys, emissions, run);
    FrontDoesNotFail(keys, CONNECTED, events, Asks(maxLen, false));
    RunIsSimple(sent, keys, emissions, events);
    NothingMore(sent, [], BEGIN, calls, c);
    var n := |InOrder(sent, [], BEGIN, calls)|;
    UpToAll([], all);
    assert [] + Brought(HandedOn(keys, CONNECTED, run)) == Brought(HandedOn(keys, CONNECTED, run));
    if n < |sent| {
      QueuedIsHere(sent, s, attempts, HandedOn(keys, CONNECTED, run), n);
    }
  }

  lemma FlightIsReady(sent: seq<Message>, s: Flight.Sender)
    requires FlightOf(sent, s)
    ensures FlightCoverage.Ready(s)
  {}

  lemma SentPartition(s: Flight.Sender, attempts: seq<FlightCoverage.Attempt>)
    requires FlightCoverage.Ready(s) && FlightCoverage.PosOf(s) == FlightCoverage.BEGIN
    requires FlightCoverage.FlushAll(s, attempts).2.AllSent?
    ensures FlightCoverage.Partition(s.messages, PiecesSent(s, attempts))
  {
    hide FlightCoverage.FlushAll, FlightCoverage.Partition;
    FlightCoverage.ResumedFlightIsWhole(s, attempts);
  }
}
